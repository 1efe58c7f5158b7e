/**
 * The pattern language of the ELB access-log regular expression: a fixed
 * sequence of slots, each a delimiter followed by one capture group, closed
 * by a literal tail. Captures are single character classes under `*`, `+`,
 * `+?`, or an alternation `(alt|[...]*)`.
 *
 * `Derives` says declaratively when a text is an instance of such a pattern,
 * slot by slot; `Woven` says the same of the text as a whole.
 */
module Pattern {
  /** The character sets occurring in the pattern. */
  datatype CharSet =
    | NotSpace        // [^ ]
    | NotQuote        // [^"]
    | NotNewline      // .   (compiled without DOTALL)
    | NotWhitespace   // [^\s]
    | Digit           // [0-9]
    | DigitDotDash    // [-.0-9]
    | DigitDash       // [-0-9]
    | CipherChar      // [A-Z0-9-]
    | ProtocolChar    // [A-Za-z0-9.-]
    | ColonDash       // [:-]

  predicate IsDigit(c: char) { '0' <= c <= '9' }

  predicate IsUpper(c: char) { 'A' <= c <= 'Z' }

  predicate IsLower(c: char) { 'a' <= c <= 'z' }

  /** `\s` in a str pattern: the characters for which Python's str.isspace holds. */
  predicate IsSpace(c: char) {
    ('\t' <= c <= '\r') || ('\U{1C}' <= c <= '\U{20}') || c == '\U{85}' || c == '\U{A0}'
    || c == '\U{1680}' || ('\U{2000}' <= c <= '\U{200A}') || c == '\U{2028}' || c == '\U{2029}'
    || c == '\U{202F}' || c == '\U{205F}' || c == '\U{3000}'
  }

  predicate In(cs: CharSet, c: char) {
    match cs
    case NotSpace => c != ' '
    case NotQuote => c != '"'
    case NotNewline => c != '\n'
    case NotWhitespace => !IsSpace(c)
    case Digit => IsDigit(c)
    case DigitDotDash => IsDigit(c) || c == '.' || c == '-'
    case DigitDash => IsDigit(c) || c == '-'
    case CipherChar => IsUpper(c) || IsDigit(c) || c == '-'
    case ProtocolChar => IsUpper(c) || IsLower(c) || IsDigit(c) || c == '.' || c == '-'
    case ColonDash => c == ':' || c == '-'
  }

  /** Every character of `w` is in `cs`. */
  predicate All(cs: CharSet, w: string) {
    forall i :: 0 <= i < |w| ==> In(cs, w[i])
  }

  /** The body of one capture group. */
  datatype Class =
    | Star(cs: CharSet)                   // [...]*       greedy
    | Plus(cs: CharSet)                   // [...]+       greedy
    | LazyPlus(cs: CharSet)               // [...]+?      lazy
    | AltStar(alt: string, cs: CharSet)   // (alt|[...]*) left branch first

  /** The language of a capture group. */
  predicate InClass(cls: Class, w: string) {
    match cls
    case Star(cs) => All(cs, w)
    case Plus(cs) => |w| > 0 && All(cs, w)
    case LazyPlus(cs) => |w| > 0 && All(cs, w)
    case AltStar(alt, cs) => w == alt || All(cs, w)
  }

  /** What comes before a capture group: literal text or one character of a set. */
  datatype Lead = Lit(text: string) | OneOf(cs: CharSet)

  predicate LeadFits(lead: Lead, w: string) {
    match lead
    case Lit(t) => w == t
    case OneOf(cs) => |w| == 1 && In(cs, w[0])
  }

  datatype Slot = Slot(lead: Lead, cls: Class)

  /** Every lead and capture fits its slot. */
  predicate Fits(slots: seq<Slot>, leads: seq<string>, caps: seq<string>) {
    |leads| == |slots| && |caps| == |slots| &&
    forall i :: 0 <= i < |slots| ==> LeadFits(slots[i].lead, leads[i]) && InClass(slots[i].cls, caps[i])
  }

  /**
   * `s[pos..end]` is an instance of the pattern `slots` followed by `tail`,
   * with `leads[i]` the text of the i-th delimiter and `caps[i]` that of the
   * i-th capture group.
   */
  predicate Derives(slots: seq<Slot>, tail: string, s: string, pos: nat, end: nat,
                    leads: seq<string>, caps: seq<string>)
    decreases |slots|
  {
    pos <= end <= |s| && |leads| == |slots| && |caps| == |slots| &&
    if slots == [] then s[pos..end] == tail
    else
      var p1 := pos + |leads[0]|;
      var p2 := p1 + |caps[0]|;
      p2 <= end &&
      s[pos..p1] == leads[0] && LeadFits(slots[0].lead, leads[0]) &&
      s[p1..p2] == caps[0] && InClass(slots[0].cls, caps[0]) &&
      Derives(slots[1..], tail, s, p2, end, leads[1..], caps[1..])
  }

  /** Some instance of the pattern starts at `pos`. */
  ghost predicate Derivable(slots: seq<Slot>, tail: string, s: string, pos: nat) {
    exists end: nat, leads: seq<string>, caps: seq<string> :: Derives(slots, tail, s, pos, end, leads, caps)
  }

  /** The delimiters and captures laid side by side. */
  function Weave(leads: seq<string>, caps: seq<string>): string
    requires |leads| == |caps|
  {
    if leads == [] then [] else leads[0] + caps[0] + Weave(leads[1..], caps[1..])
  }

  /** `s[pos..end]` spells fitting delimiters and captures, interleaved, then the tail. */
  predicate Woven(slots: seq<Slot>, tail: string, s: string, pos: nat, end: nat,
                  leads: seq<string>, caps: seq<string>)
  {
    pos <= end <= |s| && Fits(slots, leads, caps) && |leads| == |caps| &&
    s[pos..end] == Weave(leads, caps) + tail
  }

  /** Some woven instance of the pattern starts at `pos`. */
  ghost predicate Occurs(slots: seq<Slot>, tail: string, s: string, pos: nat) {
    exists end: nat, leads: seq<string>, caps: seq<string> :: Woven(slots, tail, s, pos, end, leads, caps)
  }

  predicate StartsWith(s: string, p: nat, t: string) {
    p + |t| <= |s| && s[p..p + |t|] == t
  }

  // ---------------------------------------------------------------------
  // The derivation read as text: delimiters and captures laid side by side.
  // ---------------------------------------------------------------------

  /** `Fits` on a non-empty pattern splits into its first slot and the rest. */
  lemma FitsSplit(slots: seq<Slot>, leads: seq<string>, caps: seq<string>)
    requires slots != [] && |leads| == |slots| && |caps| == |slots|
    ensures Fits(slots, leads, caps) <==>
      LeadFits(slots[0].lead, leads[0]) && InClass(slots[0].cls, caps[0]) && Fits(slots[1..], leads[1..], caps[1..])
  {
    if LeadFits(slots[0].lead, leads[0]) && InClass(slots[0].cls, caps[0]) && Fits(slots[1..], leads[1..], caps[1..]) {
      forall i | 0 <= i < |slots|
        ensures LeadFits(slots[i].lead, leads[i]) && InClass(slots[i].cls, caps[i])
      {
        if i > 0 {
          assert slots[1..][i - 1] == slots[i] && leads[1..][i - 1] == leads[i] && caps[1..][i - 1] == caps[i];
        }
      }
    }
  }

  /**
   * A derivation is exactly a choice of fitting delimiters and captures
   * whose interleaving, followed by the tail, spells the matched text.
   */
  lemma {:induction false} DerivesIffWoven(slots: seq<Slot>, tail: string, s: string, pos: nat, end: nat,
                                           leads: seq<string>, caps: seq<string>)
    ensures Derives(slots, tail, s, pos, end, leads, caps) <==> Woven(slots, tail, s, pos, end, leads, caps)
    decreases |slots|
  {
    if slots != [] && |leads| == |slots| && |caps| == |slots| && pos <= end <= |s| {
      FitsSplit(slots, leads, caps);
      var p1 := pos + |leads[0]|;
      var p2 := p1 + |caps[0]|;
      var rest := Weave(leads[1..], caps[1..]) + tail;
      assert Weave(leads, caps) + tail == leads[0] + caps[0] + rest;
      if p2 <= end {
        DerivesIffWoven(slots[1..], tail, s, p2, end, leads[1..], caps[1..]);
        SliceThree(s, pos, p1, p2, end, leads[0], caps[0], rest);
      } else {
        assert |s[pos..end]| < |leads[0] + caps[0] + rest|;
      }
    }
  }

  /** A slice is `a + b + c` exactly when its three consecutive parts are. */
  lemma SliceThree(s: string, pos: nat, p1: nat, p2: nat, end: nat, a: string, b: string, c: string)
    requires pos <= p1 <= p2 <= end <= |s| && |a| == p1 - pos && |b| == p2 - p1
    ensures s[pos..end] == a + b + c <==> s[pos..p1] == a && s[p1..p2] == b && s[p2..end] == c
  {
    if s[pos..end] == a + b + c {
      var w := a + b + c;
      assert s[pos..p1] == w[..|a|];
      assert s[p1..p2] == w[|a|..|a| + |b|] by {
        forall i | 0 <= i < |b| ensures s[p1..p2][i] == w[|a|..|a| + |b|][i] {
          assert s[p1 + i] == s[pos..end][|a| + i];
        }
      }
      assert s[p2..end] == w[|a| + |b|..];
    }
    if s[pos..p1] == a && s[p1..p2] == b && s[p2..end] == c {
      assert s[pos..end] == s[pos..p1] + s[p1..p2] + s[p2..end];
    }
  }

  /** Weaving splits at any slot: the slots before `i`, then those from `i` on. */
  lemma {:induction false} WeaveSplit(leads: seq<string>, caps: seq<string>, i: nat)
    requires |leads| == |caps| && i <= |leads|
    ensures Weave(leads, caps) == Weave(leads[..i], caps[..i]) + Weave(leads[i..], caps[i..])
    decreases i
  {
    if i > 0 {
      WeaveSplit(leads[1..], caps[1..], i - 1);
      assert leads[1..][..i - 1] == leads[..i][1..] && caps[1..][..i - 1] == caps[..i][1..];
      assert leads[1..][i - 1..] == leads[i..] && caps[1..][i - 1..] == caps[i..];
    } else {
      assert leads[..0] == [] && leads[0..] == leads && caps[0..] == caps;
    }
  }

  /** Weaving from slot `i` starts with that slot's delimiter and capture. */
  lemma WeaveAt(leads: seq<string>, caps: seq<string>, i: nat)
    requires |leads| == |caps| && i < |leads|
    ensures Weave(leads[i..], caps[i..]) == leads[i] + caps[i] + Weave(leads[i + 1..], caps[i + 1..])
  {
    assert leads[i..][1..] == leads[i + 1..] && caps[i..][1..] == caps[i + 1..];
  }

  /** The woven text around slots `i` and `i + 1`: what precedes, the two slots and the next delimiter, what follows. */
  lemma WeaveWindow(leads: seq<string>, caps: seq<string>, i: nat)
    requires |leads| == |caps| && i + 3 <= |leads|
    ensures Weave(leads, caps) ==
      Weave(leads[..i], caps[..i]) +
      (leads[i] + caps[i] + leads[i + 1] + caps[i + 1] + leads[i + 2]) +
      (caps[i + 2] + Weave(leads[i + 3..], caps[i + 3..]))
  {
    WeaveSplit(leads, caps, i);
    WeaveAt(leads, caps, i);
    WeaveAt(leads, caps, i + 1);
    WeaveAt(leads, caps, i + 2);
    Regroup(Weave(leads[..i], caps[..i]), leads[i], caps[i], leads[i + 1], caps[i + 1], leads[i + 2], caps[i + 2],
            Weave(leads[i + 3..], caps[i + 3..]));
  }

  /** Re-bracketing of the concatenation `WeaveWindow` needs. */
  lemma Regroup(w: string, a: string, b: string, c: string, d: string, e: string, f: string, r: string)
    ensures w + (a + b + (c + d + (e + f + r))) == w + (a + b + c + d + e) + (f + r)
  {
  }

  /** A fitting delimiter and capture in front of a derivation of the rest derive the whole. */
  lemma DeriveStep(slots: seq<Slot>, tail: string, s: string, pos: nat, lead: string, q: nat, end: nat,
                   leads: seq<string>, caps: seq<string>)
    requires slots != [] && StartsWith(s, pos, lead) && LeadFits(slots[0].lead, lead)
    requires pos + |lead| <= q <= |s| && InClass(slots[0].cls, s[pos + |lead|..q])
    requires Derives(slots[1..], tail, s, q, end, leads, caps)
    ensures Derives(slots, tail, s, pos, end, [lead] + leads, [s[pos + |lead|..q]] + caps)
  {
    assert ([lead] + leads)[1..] == leads;
    assert ([s[pos + |lead|..q]] + caps)[1..] == caps;
  }

  /** The first delimiter and capture of a derivation, and the derivation of the rest. */
  lemma DerivesHead(slots: seq<Slot>, tail: string, s: string, pos: nat, end: nat,
                    leads: seq<string>, caps: seq<string>)
    requires slots != [] && Derives(slots, tail, s, pos, end, leads, caps)
    ensures pos <= |s| && StartsWith(s, pos, leads[0]) && LeadFits(slots[0].lead, leads[0])
    ensures pos + |leads[0]| + |caps[0]| <= |s|
    ensures InClass(slots[0].cls, s[pos + |leads[0]|..pos + |leads[0]| + |caps[0]|])
    ensures Derives(slots[1..], tail, s, pos + |leads[0]| + |caps[0]|, end, leads[1..], caps[1..])
  {
  }
}
