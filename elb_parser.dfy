/**
 * `parse`: search a log line for the access-log pattern and, when it is
 * found, build a dictionary from the 33 field names to the 33 captures.
 * When nothing matches, `re.search` yields `None` and the first `group`
 * call raises, so no dictionary is returned: the model returns `None`.
 */
module ElbParser {
  import opened Wrappers
  import opened Pattern
  import opened Regex
  import opened ElbFormat

  type Payload = map<string, string>

  /**
   * The dictionary after `names[k] := vals[k]` for k = 0, 1, ... in turn;
   * a later assignment to a name overwrites an earlier one.
   */
  function Fill(names: seq<string>, vals: seq<string>): (p: Payload)
    requires |names| == |vals|
    ensures forall k :: k in p <==> k in names
    decreases |names|
  {
    if names == [] then map[]
    else
      var n := |names| - 1;
      assert names == names[..n] + [names[n]];
      Fill(names[..n], vals[..n])[names[n] := vals[n]]
  }

  /** `parse` as a value: the payload of the leftmost match, or `None` where the call raises. */
  function ParseLine(line: string): (r: Option<Payload>)
    ensures r.Some? ==> forall k :: k in r.value <==> k in Fields
  {
    match Search(Slots, Tail, line)
    case None => None
    case Some(m) => Some(Fill(Fields, m.caps))
  }

  /** `parse`, with the loop that fills the dictionary one field at a time. */
  method Parse(line: string) returns (payload: Option<Payload>)
    ensures payload == ParseLine(line)
  {
    var matches := Search(Slots, Tail, line);
    if matches.None? {
      // `matches.group(1)` on None raises AttributeError: nothing is returned.
      return None;
    }
    var m := matches.value;
    var p: Payload := map[];
    var i := 0;
    while i < |Fields|
      invariant 0 <= i <= |Fields|
      invariant p == Fill(Fields[..i], m.caps[..i])
    {
      FillStep(Fields, m.caps, i);
      p := p[Fields[i] := m.caps[i]];
      i := i + 1;
    }
    FillStep(Fields, m.caps, i);
    return Some(p);
  }

  /** The captures of a payload, in field order. */
  function Values(p: Payload): (caps: seq<string>)
    requires forall i :: 0 <= i < |Fields| ==> Fields[i] in p
    ensures |caps| == |Fields|
  {
    seq(|Fields|, i requires 0 <= i < |Fields| => p[Fields[i]])
  }

  /** A record of the log format spans `line[start..end]` (for some separator and fields). */
  ghost predicate RecordAt(line: string, start: nat) {
    exists end: nat, caps: seq<string>, sep: char ::
      start <= end <= |line| && IsRecord(line[start..end], caps, sep)
  }

  // ---------------------------------------------------------------------
  // Filling the dictionary.
  // ---------------------------------------------------------------------

  /** One more assignment extends the prefix filled so far; the full prefix is the whole table. */
  lemma FillStep(names: seq<string>, vals: seq<string>, i: nat)
    requires |names| == |vals| && i <= |names|
    ensures i < |names| ==> Fill(names[..i + 1], vals[..i + 1]) == Fill(names[..i], vals[..i])[names[i] := vals[i]]
    ensures i == |names| ==> Fill(names[..i], vals[..i]) == Fill(names, vals)
  {
    if i < |names| {
      assert names[..i + 1][..i] == names[..i];
      assert vals[..i + 1][..i] == vals[..i];
    } else {
      assert names[..i] == names && vals[..i] == vals;
    }
  }

  /** With distinct names, the filled dictionary has exactly those keys, each mapped to its own value. */
  lemma {:induction false} FillLookup(names: seq<string>, vals: seq<string>)
    requires |names| == |vals|
    requires forall i, j :: 0 <= i < j < |names| ==> names[i] != names[j]
    ensures forall k :: k in Fill(names, vals) <==> k in names
    ensures forall i :: 0 <= i < |names| ==> Fill(names, vals)[names[i]] == vals[i]
    decreases |names|
  {
    if names != [] {
      var n := |names| - 1;
      var front, fvals := names[..n], vals[..n];
      FillLookup(front, fvals);
      forall k
        ensures k in Fill(names, vals) <==> k in names
      {
        assert k in names <==> k in front || k == names[n] by {
          assert names == front + [names[n]];
        }
      }
      forall i | 0 <= i < |names|
        ensures Fill(names, vals)[names[i]] == vals[i]
      {
        if i < n {
          assert front[i] == names[i] && fvals[i] == vals[i];
        }
      }
    }
  }

  /**
   * On success the payload has exactly the 33 field names as keys, and the
   * i-th name maps to capture group i + 1 of the leftmost match.
   */
  lemma PayloadShape(line: string)
    requires ParseLine(line).Some?
    ensures var p := ParseLine(line).value;
      var m := Search(Slots, Tail, line).value;
      (forall k :: k in p <==> k in Fields) &&
      (forall i :: 0 <= i < |Fields| ==> Fields[i] in p && p[Fields[i]] == m.caps[i]) &&
      Values(p) == m.caps
  {
    var m := Search(Slots, Tail, line).value;
    FieldTable();
    FillLookup(Fields, m.caps);
  }

  // ---------------------------------------------------------------------
  // Matches are records, and records are matches.
  // ---------------------------------------------------------------------

  /** A woven instance of the pattern is a record whose separator is the `[:-]` delimiter. */
  lemma WovenIsRecord(line: string, start: nat, end: nat, leads: seq<string>, caps: seq<string>)
    requires Woven(Slots, Tail, line, start, end, leads, caps)
    ensures |leads| == |Slots| && |leads[SepSlot]| == 1
    ensures IsRecord(line[start..end], caps, leads[SepSlot][0])
  {
    LeadsAreDelimiters(leads, caps);
  }

  /** The pattern occurs at a position exactly when a record starts there. */
  lemma OccursIsRecordAt(line: string, start: nat)
    ensures Occurs(Slots, Tail, line, start) <==> RecordAt(line, start)
  {
    if Occurs(Slots, Tail, line, start) {
      var end: nat, leads: seq<string>, caps: seq<string> :| Woven(Slots, Tail, line, start, end, leads, caps);
      WovenIsRecord(line, start, end, leads, caps);
    }
    if RecordAt(line, start) {
      var end: nat, caps: seq<string>, sep: char :|
        start <= end <= |line| && IsRecord(line[start..end], caps, sep);
      assert Woven(Slots, Tail, line, start, end, Delimiters(sep), caps);
    }
  }

  /**
   * Parsing is all or nothing: it fails exactly when no record occurs
   * anywhere in the line.
   */
  lemma ParseFailsIffNoRecord(line: string)
    ensures ParseLine(line).None? <==> forall q: nat :: q <= |line| ==> !RecordAt(line, q)
  {
    SearchFindsLeftmost(Slots, Tail, line);
    forall q: nat | q <= |line|
      ensures Occurs(Slots, Tail, line, q) <==> RecordAt(line, q)
    {
      OccursIsRecordAt(line, q);
    }
  }

  /** The matched text is a record, and no record starts further left. */
  lemma SearchIsLeftmostRecord(line: string)
    requires Search(Slots, Tail, line).Some?
    ensures var m := Search(Slots, Tail, line).value;
      |m.leads| == |Slots| && |m.leads[SepSlot]| == 1 &&
      IsRecord(line[m.start..m.end], m.caps, m.leads[SepSlot][0]) &&
      forall q: nat :: q < m.start ==> !RecordAt(line, q)
  {
    SearchFindsLeftmost(Slots, Tail, line);
    var m := Search(Slots, Tail, line).value;
    WovenIsRecord(line, m.start, m.end, m.leads, m.caps);
    forall q: nat | q < m.start
      ensures !RecordAt(line, q)
    {
      OccursIsRecordAt(line, q);
    }
  }

  /**
   * When parsing succeeds, the text it matched is a record whose fields are
   * the payload's values in field order (so the values interleaved with the
   * delimiters rebuild that text), and no record starts further left.
   */
  lemma ParseYieldsLeftmostRecord(line: string)
    requires ParseLine(line).Some?
    ensures var p := ParseLine(line).value;
      (forall i :: 0 <= i < |Fields| ==> Fields[i] in p) &&
      exists start: nat, end: nat, sep: char ::
        start <= end <= |line| && IsRecord(line[start..end], Values(p), sep) &&
        forall q: nat :: q < start ==> !RecordAt(line, q)
  {
    PayloadShape(line);
    SearchIsLeftmostRecord(line);
  }

  /**
   * Every record is accepted, wherever it sits in a line: whatever precedes
   * or follows it, parsing the line succeeds.
   */
  lemma RecordIsAccepted(prefix: string, w: string, caps: seq<string>, sep: char, suffix: string)
    requires IsRecord(w, caps, sep)
    ensures ParseLine(prefix + w + suffix).Some?
  {
    var line := prefix + w + suffix;
    assert line[|prefix|..|prefix| + |w|] == w;
    assert RecordAt(line, |prefix|);
    ParseFailsIffNoRecord(line);
  }
}
