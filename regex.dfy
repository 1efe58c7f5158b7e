/**
 * The fragment of Python's `re` module that the ELB access-log pattern uses.
 * `MatchAt` is the backtracking matcher (candidate lengths tried in the order
 * Python tries them), and `Search` is `re.search`: the leftmost start at which
 * `MatchAt` succeeds. Both are proved sound and complete for `Derives`.
 */
module Regex {
  import opened Wrappers
  import opened Pattern

  /** Length of the longest run of `cs` characters starting at `p`. */
  function Run(cs: CharSet, s: string, p: nat): (n: nat)
    requires p <= |s|
    ensures p + n <= |s|
    decreases |s| - p
  {
    if p < |s| && In(cs, s[p]) then 1 + Run(cs, s, p + 1) else 0
  }

  /** hi, hi - 1, ..., lo */
  function Down(hi: int, lo: nat): (r: seq<nat>)
    ensures forall c :: c in r ==> lo <= c <= hi
    decreases hi - lo + 1
  {
    if hi < lo then [] else [hi as nat] + Down(hi - 1, lo)
  }

  /** lo, lo + 1, ..., hi */
  function Up(lo: nat, hi: int): (r: seq<nat>)
    ensures forall c :: c in r ==> lo <= c <= hi
    decreases hi - lo + 1
  {
    if hi < lo then [] else [lo] + Up(lo + 1, hi)
  }

  /**
   * The lengths a capture may take at `p`, in the order the backtracking
   * engine tries them: greedy repetitions longest first, the lazy one
   * shortest first, an alternation its left branch first.
   */
  function Candidates(cls: Class, s: string, p: nat): (r: seq<nat>)
    requires p <= |s|
    ensures forall c :: c in r ==> p + c <= |s|
  {
    var n := Run(cls.cs, s, p);
    match cls
    case Star(_) => Down(n, 0)
    case Plus(_) => Down(n, 1)
    case LazyPlus(_) => Up(1, n)
    case AltStar(alt, _) => (if StartsWith(s, p, alt) then [|alt|] else []) + Down(n, 0)
  }

  /** The text of a delimiter at `p`, if it is there. */
  function LeadAt(lead: Lead, s: string, p: nat): (r: Option<string>)
    requires p <= |s|
    ensures r.Some? ==> StartsWith(s, p, r.value) && LeadFits(lead, r.value)
  {
    match lead
    case Lit(t) => if StartsWith(s, p, t) then Some(t) else None
    case OneOf(cs) =>
      if p < |s| && In(cs, s[p]) then
        assert s[p..p + 1] == [s[p]];
        Some([s[p]])
      else None
  }

  datatype Found = Found(end: nat, leads: seq<string>, caps: seq<string>)

  /** The backtracking matcher, anchored at `pos`. */
  function MatchAt(slots: seq<Slot>, tail: string, s: string, pos: nat): (r: Option<Found>)
    requires pos <= |s|
    ensures r.Some? ==> pos <= r.value.end <= |s| && |r.value.leads| == |slots| && |r.value.caps| == |slots|
    decreases |slots|, 0
  {
    if slots == [] then
      if StartsWith(s, pos, tail) then Some(Found(pos + |tail|, [], [])) else None
    else
      match LeadAt(slots[0].lead, s, pos)
      case None => None
      case Some(lead) => TryCands(slots, tail, s, pos, lead, Candidates(slots[0].cls, s, pos + |lead|))
  }

  /** Tries the first slot's capture lengths in order; the first that lets the rest match wins. */
  function TryCands(slots: seq<Slot>, tail: string, s: string, pos: nat, lead: string, cands: seq<nat>): (r: Option<Found>)
    requires slots != [] && pos + |lead| <= |s|
    requires forall c :: c in cands ==> pos + |lead| + c <= |s|
    ensures r.Some? ==> pos <= r.value.end <= |s| && |r.value.leads| == |slots| && |r.value.caps| == |slots|
    decreases |slots| - 1, |cands|
  {
    if cands == [] then None
    else
      var p := pos + |lead|;
      var q := p + cands[0];
      assert cands[0] in cands;
      assert forall c :: c in cands[1..] ==> c in cands;
      match MatchAt(slots[1..], tail, s, q)
      case Some(f) => Some(Found(f.end, [lead] + f.leads, [s[p..q]] + f.caps))
      case None => TryCands(slots, tail, s, pos, lead, cands[1..])
  }

  datatype Match = Match(start: nat, end: nat, leads: seq<string>, caps: seq<string>)

  function SearchFrom(slots: seq<Slot>, tail: string, s: string, from: nat): (r: Option<Match>)
    requires from <= |s|
    ensures r.Some? ==> from <= r.value.start <= r.value.end <= |s|
    ensures r.Some? ==> |r.value.leads| == |slots| && |r.value.caps| == |slots|
    decreases |s| - from
  {
    match MatchAt(slots, tail, s, from)
    case Some(f) => Some(Match(from, f.end, f.leads, f.caps))
    case None => if from == |s| then None else SearchFrom(slots, tail, s, from + 1)
  }

  /** `re.search`: start positions 0, 1, ..., |s| are tried in turn. */
  function Search(slots: seq<Slot>, tail: string, s: string): (r: Option<Match>)
    ensures r.Some? ==> r.value.start <= r.value.end <= |s|
    ensures r.Some? ==> |r.value.leads| == |slots| && |r.value.caps| == |slots|
  {
    SearchFrom(slots, tail, s, 0)
  }

  // ---------------------------------------------------------------------
  // The matcher is sound and complete for `Derives`.
  // ---------------------------------------------------------------------

  /** `Run` is the longest run: its characters are in `cs`, the next one is not. */
  lemma {:induction false} RunMaximal(cs: CharSet, s: string, p: nat)
    requires p <= |s|
    ensures forall i :: p <= i < p + Run(cs, s, p) ==> In(cs, s[i])
    ensures p + Run(cs, s, p) < |s| ==> !In(cs, s[p + Run(cs, s, p)])
    decreases |s| - p
  {
    if p < |s| && In(cs, s[p]) {
      RunMaximal(cs, s, p + 1);
    }
  }

  lemma {:induction false} DownHas(hi: int, lo: nat, c: nat)
    requires lo <= c <= hi
    ensures c in Down(hi, lo)
    decreases hi - lo + 1
  {
    if c != hi {
      DownHas(hi - 1, lo, c);
    }
  }

  lemma {:induction false} UpHas(lo: nat, hi: int, c: nat)
    requires lo <= c <= hi
    ensures c in Up(lo, hi)
    decreases hi - lo + 1
  {
    if c != lo {
      UpHas(lo + 1, hi, c);
    }
  }

  /** Every length the engine tries for a capture fits the capture. */
  lemma CandidatesSound(cls: Class, s: string, p: nat, c: nat)
    requires p <= |s| && c in Candidates(cls, s, p)
    ensures p + c <= |s| && InClass(cls, s[p..p + c])
  {
    RunMaximal(cls.cs, s, p);
  }

  lemma CandidatesAllSound(cls: Class, s: string, p: nat)
    requires p <= |s|
    ensures forall c :: c in Candidates(cls, s, p) ==> p + c <= |s| && InClass(cls, s[p..p + c])
  {
    forall c | c in Candidates(cls, s, p)
      ensures p + c <= |s| && InClass(cls, s[p..p + c])
    {
      CandidatesSound(cls, s, p, c);
    }
  }

  /** Every length that fits the capture is tried. */
  lemma CandidatesComplete(cls: Class, s: string, p: nat, c: nat)
    requires p + c <= |s| && InClass(cls, s[p..p + c])
    ensures c in Candidates(cls, s, p)
  {
    var n := Run(cls.cs, s, p);
    RunMaximal(cls.cs, s, p);
    if cls.AltStar? && s[p..p + c] == cls.alt {
    } else {
      assert c <= n;
      match cls
      case Star(_) => DownHas(n, 0, c);
      case Plus(_) => DownHas(n, 1, c);
      case LazyPlus(_) => UpHas(1, n, c);
      case AltStar(_, _) => DownHas(n, 0, c);
    }
  }

  /** A delimiter that is present is found. */
  lemma LeadAtFinds(lead: Lead, s: string, p: nat, w: string)
    requires p <= |s| && StartsWith(s, p, w) && LeadFits(lead, w)
    ensures LeadAt(lead, s, p) == Some(w)
  {
    if lead.OneOf? {
      assert w == s[p..p + 1] == [s[p]];
    }
  }

  lemma {:induction false} MatchAtSound(slots: seq<Slot>, tail: string, s: string, pos: nat)
    requires pos <= |s|
    ensures MatchAt(slots, tail, s, pos).Some? ==>
      var f := MatchAt(slots, tail, s, pos).value;
      Derives(slots, tail, s, pos, f.end, f.leads, f.caps)
    decreases |slots|, 0
  {
    if slots != [] {
      var lead := LeadAt(slots[0].lead, s, pos);
      if lead.Some? {
        var p := pos + |lead.value|;
        var cands := Candidates(slots[0].cls, s, p);
        CandidatesAllSound(slots[0].cls, s, p);
        TryCandsSound(slots, tail, s, pos, lead.value, cands);
        MatchAtUnfold(slots, tail, s, pos, lead.value, cands);
      }
    }
  }

  /** One step of trying candidates: the first one, then the others. */
  lemma TryCandsUnfold(slots: seq<Slot>, tail: string, s: string, pos: nat, lead: string, cands: seq<nat>)
    requires slots != [] && pos + |lead| <= |s| && cands != []
    requires forall c :: c in cands ==> pos + |lead| + c <= |s|
    ensures cands[0] in cands && forall c :: c in cands[1..] ==> c in cands
    ensures var p := pos + |lead|;
      var q := p + cands[0];
      var rest := MatchAt(slots[1..], tail, s, q);
      TryCands(slots, tail, s, pos, lead, cands)
        == if rest.Some? then Some(Found(rest.value.end, [lead] + rest.value.leads, [s[p..q]] + rest.value.caps))
           else TryCands(slots, tail, s, pos, lead, cands[1..])
  {
    assert cands[0] in cands;
  }

  lemma {:induction false} TryCandsSound(slots: seq<Slot>, tail: string, s: string, pos: nat, lead: string, cands: seq<nat>)
    requires slots != [] && StartsWith(s, pos, lead) && LeadFits(slots[0].lead, lead)
    requires forall c :: c in cands ==>
      pos + |lead| + c <= |s| && InClass(slots[0].cls, s[pos + |lead|..pos + |lead| + c])
    ensures var r := TryCands(slots, tail, s, pos, lead, cands);
      r.Some? ==> Derives(slots, tail, s, pos, r.value.end, r.value.leads, r.value.caps)
    decreases |slots| - 1, |cands|
  {
    if cands != [] {
      var p := pos + |lead|;
      var q := p + cands[0];
      TryCandsUnfold(slots, tail, s, pos, lead, cands);
      MatchAtSound(slots[1..], tail, s, q);
      var rest := MatchAt(slots[1..], tail, s, q);
      if rest.Some? {
        DeriveStep(slots, tail, s, pos, lead, q, rest.value.end, rest.value.leads, rest.value.caps);
      } else {
        TryCandsSound(slots, tail, s, pos, lead, cands[1..]);
      }
    }
  }

  /** If some tried length lets the rest of the pattern match, the engine finds a match. */
  lemma {:induction false} TryCandsFinds(slots: seq<Slot>, tail: string, s: string, pos: nat, lead: string,
                                         cands: seq<nat>, c: nat)
    requires slots != [] && pos + |lead| <= |s|
    requires forall c :: c in cands ==> pos + |lead| + c <= |s|
    requires c in cands && MatchAt(slots[1..], tail, s, pos + |lead| + c).Some?
    ensures TryCands(slots, tail, s, pos, lead, cands).Some?
    decreases |cands|
  {
    if cands[0] != c {
      assert c in cands[1..];
      assert forall c :: c in cands[1..] ==> c in cands;
      TryCandsFinds(slots, tail, s, pos, lead, cands[1..], c);
    }
  }

  /** With its delimiter in place, a non-empty pattern matches as its capture candidates allow. */
  lemma MatchAtUnfold(slots: seq<Slot>, tail: string, s: string, pos: nat, lead: string, cands: seq<nat>)
    requires slots != [] && pos <= |s|
    requires StartsWith(s, pos, lead) && LeadFits(slots[0].lead, lead)
    requires cands == Candidates(slots[0].cls, s, pos + |lead|)
    ensures MatchAt(slots, tail, s, pos) == TryCands(slots, tail, s, pos, lead, cands)
  {
    LeadAtFinds(slots[0].lead, s, pos, lead);
  }

  /** If a fitting first capture lets the rest of the pattern match, the whole pattern matches. */
  lemma MatchAtFinds(slots: seq<Slot>, tail: string, s: string, pos: nat, lead: string, c: nat)
    requires slots != [] && pos <= |s| && StartsWith(s, pos, lead) && LeadFits(slots[0].lead, lead)
    requires pos + |lead| + c <= |s|
    requires InClass(slots[0].cls, s[pos + |lead|..pos + |lead| + c])
    requires MatchAt(slots[1..], tail, s, pos + |lead| + c).Some?
    ensures MatchAt(slots, tail, s, pos).Some?
  {
    var cands := Candidates(slots[0].cls, s, pos + |lead|);
    CandidatesComplete(slots[0].cls, s, pos + |lead|, c);
    TryCandsFinds(slots, tail, s, pos, lead, cands, c);
    MatchAtUnfold(slots, tail, s, pos, lead, cands);
  }

  lemma {:induction false} MatchAtComplete(slots: seq<Slot>, tail: string, s: string, pos: nat, end: nat,
                                           leads: seq<string>, caps: seq<string>)
    requires Derives(slots, tail, s, pos, end, leads, caps)
    ensures MatchAt(slots, tail, s, pos).Some?
    decreases |slots|
  {
    if slots == [] {
      assert StartsWith(s, pos, tail);
    } else {
      DerivesHead(slots, tail, s, pos, end, leads, caps);
      MatchAtComplete(slots[1..], tail, s, pos + |leads[0]| + |caps[0]|, end, leads[1..], caps[1..]);
      MatchAtCons(slots, tail, s, pos, end, leads, caps);
    }
  }

  /** A derivation whose remainder the matcher finds is found by the matcher as a whole. */
  lemma MatchAtCons(slots: seq<Slot>, tail: string, s: string, pos: nat, end: nat,
                    leads: seq<string>, caps: seq<string>)
    requires slots != [] && Derives(slots, tail, s, pos, end, leads, caps)
    requires MatchAt(slots[1..], tail, s, pos + |leads[0]| + |caps[0]|).Some?
    ensures MatchAt(slots, tail, s, pos).Some?
  {
    DerivesHead(slots, tail, s, pos, end, leads, caps);
    MatchAtFinds(slots, tail, s, pos, leads[0], |caps[0]|);
  }

  lemma DerivableMatches(slots: seq<Slot>, tail: string, s: string, pos: nat)
    requires pos <= |s|
    ensures Derivable(slots, tail, s, pos) <==> MatchAt(slots, tail, s, pos).Some?
  {
    MatchAtSound(slots, tail, s, pos);
    if Derivable(slots, tail, s, pos) {
      var end: nat, leads: seq<string>, caps: seq<string> :| Derives(slots, tail, s, pos, end, leads, caps);
      MatchAtComplete(slots, tail, s, pos, end, leads, caps);
    }
  }

  lemma {:induction false} SearchFromSpec(slots: seq<Slot>, tail: string, s: string, from: nat)
    requires from <= |s|
    ensures SearchFrom(slots, tail, s, from).Some? ==>
      var m := SearchFrom(slots, tail, s, from).value;
      Derives(slots, tail, s, m.start, m.end, m.leads, m.caps) &&
      forall p: nat :: from <= p < m.start ==> !Derivable(slots, tail, s, p)
    ensures SearchFrom(slots, tail, s, from).None? ==>
      forall p: nat :: from <= p <= |s| ==> !Derivable(slots, tail, s, p)
    decreases |s| - from
  {
    DerivableMatches(slots, tail, s, from);
    MatchAtSound(slots, tail, s, from);
    if MatchAt(slots, tail, s, from).None? && from < |s| {
      SearchFromSpec(slots, tail, s, from + 1);
    }
  }

  /**
   * `re.search` succeeds exactly when the pattern occurs somewhere; it then
   * returns an occurrence (sound), and none starts earlier (leftmost).
   */
  lemma SearchSpec(slots: seq<Slot>, tail: string, s: string)
    ensures Search(slots, tail, s).Some? ==>
      var m := Search(slots, tail, s).value;
      Derives(slots, tail, s, m.start, m.end, m.leads, m.caps) &&
      forall p: nat :: p < m.start ==> !Derivable(slots, tail, s, p)
    ensures Search(slots, tail, s).None? <==>
      forall p: nat :: p <= |s| ==> !Derivable(slots, tail, s, p)
  {
    SearchFromSpec(slots, tail, s, 0);
    if Search(slots, tail, s).Some? {
      var m := Search(slots, tail, s).value;
      assert Derivable(slots, tail, s, m.start);
    }
  }

  /**
   * `re.search` in terms of the text: it succeeds exactly when the pattern
   * occurs somewhere, returns an occurrence, and none starts earlier.
   */
  lemma SearchFindsLeftmost(slots: seq<Slot>, tail: string, s: string)
    ensures Search(slots, tail, s).None? <==> forall p: nat :: p <= |s| ==> !Occurs(slots, tail, s, p)
    ensures Search(slots, tail, s).Some? ==>
      var m := Search(slots, tail, s).value;
      Woven(slots, tail, s, m.start, m.end, m.leads, m.caps) &&
      forall p: nat :: p < m.start ==> !Occurs(slots, tail, s, p)
  {
    SearchSpec(slots, tail, s);
    forall p: nat | p <= |s|
      ensures Derivable(slots, tail, s, p) <==> Occurs(slots, tail, s, p)
    {
      if Derivable(slots, tail, s, p) {
        var end: nat, leads: seq<string>, caps: seq<string> :| Derives(slots, tail, s, p, end, leads, caps);
        DerivesIffWoven(slots, tail, s, p, end, leads, caps);
      }
      if Occurs(slots, tail, s, p) {
        var end: nat, leads: seq<string>, caps: seq<string> :| Woven(slots, tail, s, p, end, leads, caps);
        DerivesIffWoven(slots, tail, s, p, end, leads, caps);
      }
    }
    if Search(slots, tail, s).Some? {
      var m := Search(slots, tail, s).value;
      DerivesIffWoven(slots, tail, s, m.start, m.end, m.leads, m.caps);
    }
  }
}
