/** The byte strings that Unmarshal accepts, described by records alone. */
module MessageGrammar {
  import opened Words
  import opened Varint
  import opened Wire
  import opened Messages
  import opened MessageLaws

  // ---- The grammar -----------------------------------------------------------------------

  /** A record that may stand in an extent. */
  predicate InExtent(r: Record) {
    WellFormed(r) && FieldNumber(r) > 0 && (FieldNumber(r) <= 2 ==> r.VarintRecord?)
  }

  /** A payload made of such records. */
  ghost predicate IsExtent(payload: Bytes) {
    exists rs :: (forall r :: r in rs ==> InExtent(r)) && Encodings(rs) == payload
  }

  /** A record that may stand in a message of the kind of `m`: one with an unknown field number, or a known
      one of the wire type of its field, where a nested extent is made of records that may stand there. */
  ghost predicate Acceptable(m: Message, r: Record) {
    && WellFormed(r) && FieldNumber(r) > 0
    && (Known(m, FieldNumber(r)) ==>
          match FieldShape(m, FieldNumber(r))
          case ScalarShape => r.VarintRecord?
          case BytesShape => r.Delimited?
          case ExtentShape => r.Delimited? && IsExtent(r.payload))
  }

  ghost predicate IsMessage(m: Message, rs: seq<Record>, s: Bytes) {
    (forall r :: r in rs ==> Acceptable(m, r)) && Encodings(rs) == s
  }

  // ---- Records that pass are acceptable ----------------------------------------------------------

  lemma {:induction false} AllPassEach(m: Message, rs: seq<Record>)
    ensures AllPass(m, rs) <==> forall r :: r in rs ==> WellFormed(r) && Passes(m, r)
  {
    hide WellFormed, Passes;
    if rs != [] {
      AllPassEach(m, rs[1..]);
      assert rs == [rs[0]] + rs[1..];
      assert forall r :: r in rs <==> r == rs[0] || r in rs[1..];
    }
  }

  lemma PassesInExtent(r: Record)
    ensures WellFormed(r) && Passes(AnExtent(NO_EXTENT), r) <==> InExtent(r)
  {
    hide WellFormed, Run;
  }

  /** A payload is taken for an extent just when it is one. */
  lemma ExtentRunsIff(payload: Bytes)
    requires |payload| < TWO63
    ensures Run(AnExtent(NO_EXTENT), payload, 0).Ok? <==> IsExtent(payload)
  {
    hide Run, Passes, InExtent, Encodings, AllPass, WellFormed;
    var e := AnExtent(NO_EXTENT);
    RunPassesIff(e, payload);
    forall r ensures WellFormed(r) && Passes(e, r) <==> InExtent(r) {
      PassesInExtent(r);
    }
    if rs :| AllPass(e, rs) && Encodings(rs) == payload {
      AllPassEach(e, rs);
      assert forall r :: r in rs ==> InExtent(r);
    }
    if rs :| (forall r :: r in rs ==> InExtent(r)) && Encodings(rs) == payload {
      AllPassEach(e, rs);
    }
  }

  lemma {:induction false} RecordIsShorter(rs: seq<Record>, r: Record)
    requires r in rs
    ensures |Encoding(r)| <= |Encodings(rs)|
  {
    hide Encoding;
    if r != rs[0] { RecordIsShorter(rs[1..], r); }
  }

  lemma PassesIff(m: Message, r: Record)
    requires |Encoding(r)| < TWO63
    ensures WellFormed(r) && Passes(m, r) <==> Acceptable(m, r)
  {
    hide WellFormed, Run, IsExtent, FieldNumber, FieldShape, Known;
    if r.Delimited? { ExtentRunsIff(r.payload); }
  }

  lemma AllPassIff(m: Message, rs: seq<Record>)
    requires |Encodings(rs)| < TWO63
    ensures AllPass(m, rs) <==> forall r :: r in rs ==> Acceptable(m, r)
  {
    hide AllPass, Acceptable, Passes, WellFormed, Encoding, Encodings;
    AllPassEach(m, rs);
    forall r | r in rs ensures WellFormed(r) && Passes(m, r) <==> Acceptable(m, r) {
      RecordIsShorter(rs, r);
      PassesIff(m, r);
    }
  }

  /** Exactly the lists of acceptable well-formed records are parsed, end to end: on every other byte
      string the loop reports an error. */
  lemma RunAcceptsIff(m: Message, s: Bytes)
    requires |s| < TWO63
    ensures Run(m, s, 0).Ok? <==> exists rs :: IsMessage(m, rs, s)
  {
    hide Run, AllPass, Acceptable, Encodings;
    RunPassesIff(m, s);
    if rs :| AllPass(m, rs) && Encodings(rs) == s {
      AllPassIff(m, rs);
      assert IsMessage(m, rs, s);
    }
    if rs :| IsMessage(m, rs, s) {
      AllPassIff(m, rs);
    }
  }

  // ---- The required field -----------------------------------------------------------------------

  ghost predicate HasNumber(rs: seq<Record>, field: int32) {
    exists r :: r in rs && FieldNumber(r) == field
  }

  /** A turn over a record notes the required field just when that is the record's. */
  lemma StepNotes(m: Message, r: Record, rest: Bytes, at: nat)
    requires m.AnOperation? && WellFormed(r) && Passes(m, r) && at + |Encoding(r)| + |rest| < TWO63
    ensures Step(m, Encoding(r) + rest, at).Got? && Step(m, Encoding(r) + rest, at).len == |Encoding(r)|
    ensures Step(m, Encoding(r) + rest, at).value.hasType <==> m.hasType || FieldNumber(r) == 1
  {
    hide ReadVarint, Run, WellFormed, Encoding, Passes, Skip, ReadExtent, ReadPayload;
    StepAccepts(m, r, rest, at);
    RecordStartsWithTag(r, rest);
  }

  lemma {:induction false} RunNotes(m: Message, rs: seq<Record>, at: nat)
    requires m.AnOperation? && AllPass(m, rs) && at + |Encodings(rs)| < TWO63
    ensures Run(m, Encodings(rs), at).Ok?
    ensures Run(m, Encodings(rs), at).message.hasType <==> m.hasType || HasNumber(rs, 1)
    decreases rs
  {
    hide Step, WellFormed, Encoding, Passes, FieldNumber;
    if rs != [] {
      var e, more := Encoding(rs[0]), Encodings(rs[1..]);
      StepNotes(m, rs[0], more, at);
      var m' := Step(m, e + more, at).value;
      assert (e + more)[|e|..] == more;
      PassesByKind(m, m', rs[1..]);
      RunNotes(m', rs[1..], at + |e|);
      assert rs == [rs[0]] + rs[1..];
    }
  }

  /** Unmarshal accepts exactly the lists of acceptable records; for an InstallOperation one of them has
      to have the number of the required field. */
  lemma UnmarshalAcceptsIff(m: Message, s: Bytes)
    requires |s| < TWO63
    ensures Unmarshal(m, s).Ok? <==>
            exists rs :: IsMessage(m, rs, s) && (m.AnOperation? ==> HasNumber(rs, 1))
  {
    hide Run, Acceptable, Encodings, AllPass, HasNumber;
    var start := if m.AnOperation? then m.(hasType := false) else m;
    RunAcceptsIff(start, s);
    SameGrammar(m, start);
    if m.AnOperation? {
      forall rs | IsMessage(start, rs, s) ensures Run(start, s, 0).message.hasType <==> HasNumber(rs, 1) {
        AllPassIff(start, rs);
        RunNotes(start, rs, 0);
      }
    }
  }

  lemma SameGrammar(m: Message, m': Message)
    requires SameKind(m, m')
    ensures forall rs, s :: IsMessage(m, rs, s) <==> IsMessage(m', rs, s)
  {
    hide WellFormed, FieldNumber, Encodings, IsExtent;
    forall r ensures Acceptable(m, r) <==> Acceptable(m', r) {
    }
  }
}
