/**
 * The ELB/ALB access-log line format: the 33 capture groups of the log
 * pattern, each with the delimiter in front of it, the closing `" ` after
 * the last one, and the 33 field names in the order the groups appear.
 */
module ElbFormat {
  import opened Pattern

  /**
   * The log pattern, group by group. The pattern is written as four raw
   * strings joined by implicit concatenation; two joins fall inside a
   * character class (`(|[-0-9]*)` and `([A-Za-z0-9.-]*)`), and the slots
   * below are the joined pattern.
   */
  const Slots: seq<Slot> := [
    Slot(Lit(""), Star(NotSpace)),                  //  1 type
    Slot(Lit(" "), Star(NotSpace)),                 //  2 timestamp
    Slot(Lit(" "), Star(NotSpace)),                 //  3 elb
    Slot(Lit(" "), Star(NotSpace)),                 //  4 client_ip
    Slot(Lit(":"), Star(Digit)),                    //  5 client_port
    Slot(Lit(" "), Star(NotSpace)),                 //  6 target_ip
    Slot(OneOf(ColonDash), Star(Digit)),            //  7 target_port
    Slot(Lit(" "), Star(DigitDotDash)),             //  8 request_processing_time
    Slot(Lit(" "), Star(DigitDotDash)),             //  9 backend_processing_time
    Slot(Lit(" "), Star(DigitDotDash)),             // 10 response_processing_time
    Slot(Lit(" "), AltStar("", DigitDash)),         // 11 elb_status_code
    Slot(Lit(" "), AltStar("-", DigitDash)),        // 12 target_status_code
    Slot(Lit(" "), Star(DigitDash)),                // 13 received_bytes
    Slot(Lit(" "), Star(DigitDash)),                // 14 sent_bytes
    Slot(Lit(" \""), Star(NotSpace)),               // 15 request_verb
    Slot(Lit(" "), Star(NotNewline)),               // 16 request_url
    Slot(Lit(" "), AltStar("- ", NotSpace)),        // 17 request_proto
    Slot(Lit("\" \""), Star(NotQuote)),             // 18 user_agent
    Slot(Lit("\" "), Plus(CipherChar)),             // 19 ssl_cipher
    Slot(Lit(" "), Star(ProtocolChar)),             // 20 ssl_protocol
    Slot(Lit(" "), Star(NotSpace)),                 // 21 target_group_arn
    Slot(Lit(" \""), Star(NotQuote)),               // 22 trace_id
    Slot(Lit("\" \""), Star(NotQuote)),             // 23 domain_name
    Slot(Lit("\" \""), Star(NotQuote)),             // 24 chosen_cert_arn
    Slot(Lit("\" "), Star(DigitDotDash)),           // 25 matched_rule_priority
    Slot(Lit(" "), Star(NotSpace)),                 // 26 request_creation_time
    Slot(Lit(" \""), Star(NotQuote)),               // 27 actions_executed
    Slot(Lit("\" \""), Star(NotQuote)),             // 28 redirect_url
    Slot(Lit("\" \""), Star(NotSpace)),             // 29 lambda_error_reason
    Slot(Lit("\" \""), LazyPlus(NotWhitespace)),    // 30 target_port_list
    Slot(Lit("\" \""), Plus(NotWhitespace)),        // 31 target_status_code_list
    Slot(Lit("\" \""), Star(NotSpace)),             // 32 classification
    Slot(Lit("\" \""), Star(NotSpace))              // 33 classification_reason
  ]

  /** What the pattern requires after the last group: a closing quote and a space. */
  const Tail: string := "\" "

  /** The field names; the i-th names capture group i + 1. */
  const Fields: seq<string> := [
    "type", "timestamp", "elb", "client_ip", "client_port", "target_ip", "target_port",
    "request_processing_time", "backend_processing_time", "response_processing_time",
    "elb_status_code", "target_status_code", "received_bytes", "sent_bytes",
    "request_verb", "request_url", "request_proto", "user_agent", "ssl_cipher",
    "ssl_protocol", "target_group_arn", "trace_id", "domain_name", "chosen_cert_arn",
    "matched_rule_priority", "request_creation_time", "actions_executed", "redirect_url",
    "lambda_error_reason", "target_port_list", "target_status_code_list",
    "classification", "classification_reason"
  ]

  /** Index of the one group whose delimiter is a character set (`[:-]`, before target_port). */
  const SepSlot: nat := 6

  /** The delimiter texts of a line whose `[:-]` separator is `sep`. */
  function Delimiters(sep: char): (d: seq<string>)
    ensures |d| == |Slots|
  {
    seq(|Slots|, i requires 0 <= i < |Slots| =>
      match Slots[i].lead
      case Lit(t) => t
      case OneOf(_) => [sep])
  }

  /** A record's text: the delimiters and the 33 captures interleaved, then the tail. */
  function Render(caps: seq<string>, sep: char): string
    requires |caps| == |Slots|
  {
    Weave(Delimiters(sep), caps) + Tail
  }

  /**
   * `w` is a well-formed log record whose fields are `caps`: every field is
   * in its group's class, the separator is `:` or `-`, and the delimiters
   * and fields spell `w`.
   */
  predicate IsRecord(w: string, caps: seq<string>, sep: char) {
    |caps| == |Slots| && In(ColonDash, sep) &&
    Fits(Slots, Delimiters(sep), caps) && w == Render(caps, sep)
  }

  // ---------------------------------------------------------------------
  // The pattern and the field table agree.
  // ---------------------------------------------------------------------

  /** There are as many field names as capture groups, and no name repeats. */
  lemma FieldTable()
    ensures |Fields| == |Slots| == 33
    ensures forall i, j :: 0 <= i < j < |Fields| ==> Fields[i] != Fields[j]
  {
  }

  /** Only the separator before target_port is a character set; every other delimiter is literal. */
  lemma OnlySepIsSet()
    ensures Slots[SepSlot].lead == OneOf(ColonDash)
    ensures forall i :: 0 <= i < |Slots| && i != SepSlot ==> Slots[i].lead.Lit?
  {
  }

  /**
   * The delimiters of any fitting decomposition are those of its separator:
   * a line can differ from another in its fields and in the `[:-]` character,
   * nowhere else.
   */
  lemma LeadsAreDelimiters(leads: seq<string>, caps: seq<string>)
    requires Fits(Slots, leads, caps)
    ensures |leads[SepSlot]| == 1 && In(ColonDash, leads[SepSlot][0])
    ensures leads == Delimiters(leads[SepSlot][0])
  {
    OnlySepIsSet();
    assert LeadFits(Slots[SepSlot].lead, leads[SepSlot]);
    var sep := leads[SepSlot][0];
    var d := Delimiters(sep);
    forall i | 0 <= i < |Slots|
      ensures leads[i] == d[i]
    {
      assert LeadFits(Slots[i].lead, leads[i]);
      if i == SepSlot {
        assert leads[i] == [sep];
      }
    }
  }

  /** The delimiters of a separator fit the pattern exactly when the separator is `:` or `-`. */
  lemma DelimitersFit(sep: char)
    ensures (forall i :: 0 <= i < |Slots| ==> LeadFits(Slots[i].lead, Delimiters(sep)[i])) <==> In(ColonDash, sep)
  {
    OnlySepIsSet();
    var d := Delimiters(sep);
    assert d[SepSlot] == [sep];
    if In(ColonDash, sep) {
      forall i | 0 <= i < |Slots|
        ensures LeadFits(Slots[i].lead, d[i])
      {
      }
    } else {
      assert !LeadFits(Slots[SepSlot].lead, d[SepSlot]);
    }
  }

  /** Groups 6 and 7 are named target_ip and target_port. */
  lemma TargetNames()
    ensures Fields[5] == "target_ip" && Fields[6] == "target_port"
  {
  }

  /**
   * In a record, target_ip, the separator and target_port form one token
   * between two spaces.
   */
  lemma TargetTokenInRecord(w: string, caps: seq<string>, sep: char)
    requires IsRecord(w, caps, sep)
    ensures w == Weave(Delimiters(sep)[..5], caps[..5]) +
      (" " + caps[5] + [sep] + caps[6] + " ") +
      (caps[7] + Weave(Delimiters(sep)[8..], caps[8..]) + Tail)
  {
    var d := Delimiters(sep);
    TargetDelimiters(sep);
    WeaveWindow(d, caps, 5);
    var front, token, y := Weave(d[..5], caps[..5]), d[5] + caps[5] + d[6] + caps[6] + d[7], caps[7] + Weave(d[8..], caps[8..]);
    assert (front + token + y) + Tail == front + token + (y + Tail);
  }

  /** The target token is delimited by a space, the separator, and a space. */
  lemma TargetDelimiters(sep: char)
    ensures Delimiters(sep)[5] == " " && Delimiters(sep)[6] == [sep] && Delimiters(sep)[7] == " "
  {
  }

  /** A well-formed record ends with the closing quote and space of the pattern. */
  lemma RecordEndsWithTail(w: string, caps: seq<string>, sep: char)
    requires IsRecord(w, caps, sep)
    ensures |w| >= 2 && w[|w| - 2..] == "\" "
  {
    var body := Weave(Delimiters(sep), caps);
    assert w == body + Tail;
    assert w[|body|..] == Tail;
  }
}
