/**
 * What a successful parse says about each field: the character class its
 * capture group admits, and how the `target_ip:target_port` token splits.
 */
module ElbFields {
  import opened Pattern
  import opened Regex
  import opened ElbFormat
  import opened ElbParser

  /** Field `name` is present and its value is in the language of `cls`. */
  ghost predicate Has(p: Payload, name: string, cls: Class) {
    name in p && InClass(cls, p[name])
  }

  /** Every field of the table is present and in the class of its capture group. */
  ghost predicate Typed(p: Payload) {
    forall i :: 0 <= i < |Fields| ==> Has(p, Fields[i], Slots[i].cls)
  }

  /** Every payload that parsing returns is typed. */
  lemma ParsedIsTyped(line: string)
    requires ParseLine(line).Some?
    ensures Typed(ParseLine(line).value)
  {
    PayloadShape(line);
    SearchIsLeftmostRecord(line);
  }

  /** Ports are digit runs: `[0-9]*`. */
  lemma PortFields(p: Payload)
    requires Typed(p)
    ensures Has(p, "client_port", Star(Digit)) &&
      Has(p, "target_port", Star(Digit))
  {
    assert Has(p, Fields[4], Slots[4].cls) && Has(p, Fields[6], Slots[6].cls);
  }

  /** The three processing times and the rule priority use only `-`, `.` and digits. */
  lemma TimingFields(p: Payload)
    requires Typed(p)
    ensures Has(p, "request_processing_time", Star(DigitDotDash)) &&
      Has(p, "backend_processing_time", Star(DigitDotDash)) &&
      Has(p, "response_processing_time", Star(DigitDotDash)) &&
      Has(p, "matched_rule_priority", Star(DigitDotDash))
  {
    assert Has(p, Fields[7], Slots[7].cls) && Has(p, Fields[8], Slots[8].cls) && Has(p, Fields[9], Slots[9].cls) && Has(p, Fields[24], Slots[24].cls);
  }

  /** Status codes and byte counts use only `-` and digits (the empty and `-` alternatives included). */
  lemma CountFields(p: Payload)
    requires Typed(p)
    ensures Has(p, "elb_status_code", Star(DigitDash)) &&
      Has(p, "target_status_code", Star(DigitDash)) &&
      Has(p, "received_bytes", Star(DigitDash)) &&
      Has(p, "sent_bytes", Star(DigitDash))
  {
    assert Has(p, Fields[10], Slots[10].cls) && Has(p, Fields[11], Slots[11].cls) && Has(p, Fields[12], Slots[12].cls) && Has(p, Fields[13], Slots[13].cls);
  }

  /** The cipher is a non-empty `[A-Z0-9-]+`; the protocol is over `[A-Za-z0-9.-]`. */
  lemma TlsFields(p: Payload)
    requires Typed(p)
    ensures Has(p, "ssl_cipher", Plus(CipherChar)) &&
      Has(p, "ssl_protocol", Star(ProtocolChar))
  {
    assert Has(p, Fields[18], Slots[18].cls) && Has(p, Fields[19], Slots[19].cls);
  }

  /** The target port and status lists are non-empty and free of whitespace. */
  lemma ListFields(p: Payload)
    requires Typed(p)
    ensures Has(p, "target_port_list", Plus(NotWhitespace)) &&
      Has(p, "target_status_code_list", Plus(NotWhitespace))
  {
    assert Has(p, Fields[29], Slots[29].cls) && Has(p, Fields[30], Slots[30].cls);
  }

  /** The Lambda error reason and the two classification fields contain no space. */
  lemma ReasonFields(p: Payload)
    requires Typed(p)
    ensures Has(p, "lambda_error_reason", Star(NotSpace)) &&
      Has(p, "classification", Star(NotSpace)) &&
      Has(p, "classification_reason", Star(NotSpace))
  {
    assert Has(p, Fields[28], Slots[28].cls) && Has(p, Fields[31], Slots[31].cls) && Has(p, Fields[32], Slots[32].cls);
  }

  /** The quoted free-text fields never contain a double quote. */
  lemma QuotedFields(p: Payload)
    requires Typed(p)
    ensures Has(p, "user_agent", Star(NotQuote)) &&
      Has(p, "trace_id", Star(NotQuote)) &&
      Has(p, "domain_name", Star(NotQuote)) &&
      Has(p, "chosen_cert_arn", Star(NotQuote)) &&
      Has(p, "actions_executed", Star(NotQuote)) &&
      Has(p, "redirect_url", Star(NotQuote))
  {
    assert Has(p, Fields[17], Slots[17].cls) && Has(p, Fields[21], Slots[21].cls) && Has(p, Fields[22], Slots[22].cls) && Has(p, Fields[23], Slots[23].cls) && Has(p, Fields[26], Slots[26].cls) && Has(p, Fields[27], Slots[27].cls);
  }

  /** The leading unquoted tokens contain no space. */
  lemma HeadTokenFields(p: Payload)
    requires Typed(p)
    ensures Has(p, "type", Star(NotSpace)) &&
      Has(p, "timestamp", Star(NotSpace)) &&
      Has(p, "elb", Star(NotSpace)) &&
      Has(p, "client_ip", Star(NotSpace)) &&
      Has(p, "target_ip", Star(NotSpace))
  {
    assert Has(p, Fields[0], Slots[0].cls) && Has(p, Fields[1], Slots[1].cls) && Has(p, Fields[2], Slots[2].cls) && Has(p, Fields[3], Slots[3].cls) && Has(p, Fields[5], Slots[5].cls);
  }

  /** The request verb, target group and creation time contain no space; the URL contains no newline; the protocol is `- ` or a space-free token. */
  lemma RequestFields(p: Payload)
    requires Typed(p)
    ensures Has(p, "request_verb", Star(NotSpace)) &&
      Has(p, "request_url", Star(NotNewline)) &&
      Has(p, "request_proto", AltStar("- ", NotSpace)) &&
      Has(p, "target_group_arn", Star(NotSpace)) &&
      Has(p, "request_creation_time", Star(NotSpace))
  {
    assert Has(p, Fields[14], Slots[14].cls) && Has(p, Fields[15], Slots[15].cls) && Has(p, Fields[16], Slots[16].cls) && Has(p, Fields[20], Slots[20].cls) && Has(p, Fields[25], Slots[25].cls);
  }

  // ---------------------------------------------------------------------
  // The target token `target_ip[:-]target_port`.
  // ---------------------------------------------------------------------

  /**
   * The target token splits in one way only: the port is a digit run, so
   * the separator is the last `:` or `-` of the token.
   */
  lemma TargetSplitUnique(ip1: string, sep1: char, port1: string, ip2: string, sep2: char, port2: string)
    requires ip1 + [sep1] + port1 == ip2 + [sep2] + port2
    requires In(ColonDash, sep1) && All(Digit, port1)
    requires In(ColonDash, sep2) && All(Digit, port2)
    ensures ip1 == ip2 && sep1 == sep2 && port1 == port2
  {
    var w := ip1 + [sep1] + port1;
    SeparatorIsLast(ip1, sep1, port1);
    SeparatorIsLast(ip2, sep2, port2);
    assert |ip1| == |ip2|;
    assert ip1 == w[..|ip1|] && ip2 == w[..|ip2|];
    assert port1 == w[|ip1| + 1..] && port2 == w[|ip2| + 1..];
  }

  /** In `ip + [sep] + port`, everything after the separator is a digit. */
  lemma SeparatorIsLast(ip: string, sep: char, port: string)
    requires In(ColonDash, sep) && All(Digit, port)
    ensures var w := ip + [sep] + port;
      w[|ip|] == sep && forall j :: |ip| < j < |w| ==> IsDigit(w[j])
  {
    var w := ip + [sep] + port;
    forall j | |ip| < j < |w|
      ensures IsDigit(w[j])
    {
      assert w[j] == port[j - |ip| - 1];
    }
  }

  /**
   * In a parsed line, `target_ip`, the `[:-]` separator and `target_port`
   * form one token, with a space on either side.
   */
  lemma TargetToken(line: string)
    requires ParseLine(line).Some?
    ensures var p := ParseLine(line).value;
      "target_ip" in p && "target_port" in p &&
      exists i: nat, sep: char :: In(ColonDash, sep) &&
        StartsWith(line, i, " " + p["target_ip"] + [sep] + p["target_port"] + " ")
  {
    PayloadShape(line);
    SearchIsLeftmostRecord(line);
    var p := ParseLine(line).value;
    var m := Search(Slots, Tail, line).value;
    var sep := m.leads[SepSlot][0];
    TargetNames();
    TargetTokenInRecord(line[m.start..m.end], m.caps, sep);
    var front := Weave(Delimiters(sep)[..5], m.caps[..5]);
    var token := " " + m.caps[5] + [sep] + m.caps[6] + " ";
    var after := m.caps[7] + Weave(Delimiters(sep)[8..], m.caps[8..]) + Tail;
    TokenInside(line, m.start, m.end, front, token, after);
  }

  /** Text that spells `front + t + after` contains `t` right after `front`. */
  lemma TokenInside(line: string, start: nat, end: nat, front: string, t: string, after: string)
    requires start <= end <= |line| && line[start..end] == front + t + after
    ensures StartsWith(line, start + |front|, t)
  {
    var i := start + |front|;
    assert line[i..i + |t|] == line[start..end][|front|..|front| + |t|];
  }

  /**
   * For a parsed line whose target token reads `10.0.0.1:80`, `target_ip` is
   * `10.0.0.1` and `target_port` is `80`; for the no-target form `-`, both are empty.
   */
  lemma ParsedTargetExamples(line: string, sep: char)
    requires ParseLine(line).Some?
    ensures var p := ParseLine(line).value;
      "target_ip" in p && "target_port" in p &&
      (In(ColonDash, sep) && p["target_ip"] + [sep] + p["target_port"] == "10.0.0.1:80" ==>
        p["target_ip"] == "10.0.0.1" && p["target_port"] == "80") &&
      (In(ColonDash, sep) && p["target_ip"] + [sep] + p["target_port"] == "-" ==>
        p["target_ip"] == "" && p["target_port"] == "")
  {
    ParsedIsTyped(line);
    var p := ParseLine(line).value;
    PortFields(p);
    HeadTokenFields(p);
    if In(ColonDash, sep) {
      TargetExamples(p["target_ip"], sep, p["target_port"]);
    }
  }

  /** `10.0.0.1:80` is address `10.0.0.1` and port `80`; the no-target form `-` leaves both empty. */
  lemma TargetExamples(ip: string, sep: char, port: string)
    requires In(ColonDash, sep) && All(Digit, port)
    ensures ip + [sep] + port == "10.0.0.1:80" ==> ip == "10.0.0.1" && port == "80"
    ensures ip + [sep] + port == "-" ==> ip == "" && port == ""
  {
    if ip + [sep] + port == "10.0.0.1:80" {
      assert "10.0.0.1" + [':'] + "80" == "10.0.0.1:80";
      TargetSplitUnique(ip, sep, port, "10.0.0.1", ':', "80");
    }
    if ip + [sep] + port == "-" {
      assert "" + ['-'] + "" == "-";
      TargetSplitUnique(ip, sep, port, "", '-', "");
    }
  }
}
