/** Laws of the field loop: it is a fold over records, it accepts nothing but records,
    records with unknown field numbers do not matter, and it undoes Marshal. */
module MessageLaws {
  import opened Words
  import opened Varint
  import opened Wire
  import opened Messages

  // ---- One turn of the loop looks only at the bytes it passes ------------------------

  lemma DropAppend(a: Bytes, b: Bytes, n: nat)
    requires n <= |a|
    ensures (a + b)[n..] == a[n..] + b
  {
  }

  lemma ScalarLocal(tag: Tag, a: Bytes, b: Bytes)
    requires ReadScalar(tag, a).Got?
    ensures ReadScalar(tag, a + b) == ReadScalar(tag, a)
  {
    ReadLocal(a, b);
  }

  lemma PayloadLocal(tag: Tag, a: Bytes, b: Bytes, at: nat, at': nat)
    requires ReadPayload(tag, a, at).Got? && at' + |a| + |b| < TWO63
    ensures ReadPayload(tag, a + b, at') == ReadPayload(tag, a, at)
  {
    hide ReadVarint;
    ReadLocal(a, b);
    var Got(u, n) := ReadVarint(a);
    assert (a + b)[n..n + u] == a[n..n + u];
  }

  lemma ExtentLocal(tag: Tag, a: Bytes, b: Bytes, at: nat, at': nat, into: Extent)
    requires ReadExtent(tag, a, at, into).Got? && at' + |a| + |b| < TWO63
    ensures ReadExtent(tag, a + b, at', into) == ReadExtent(tag, a, at, into)
  {
    hide ReadPayload;
    PayloadLocal(tag, a, b, at, at');
  }

  lemma SetFieldLocal(m: Message, tag: Tag, a: Bytes, b: Bytes, at: nat, at': nat)
    requires Known(m, tag.field) && SetField(m, tag, a, at).Got? && at' + |a| + |b| < TWO63
    ensures SetField(m, tag, a + b, at') == SetField(m, tag, a, at)
  {
    hide ReadScalar, ReadPayload, ReadExtent;
    if ReadScalar(tag, a).Got? { ScalarLocal(tag, a, b); }
    if ReadPayload(tag, a, at).Got? { PayloadLocal(tag, a, b, at, at'); }
    if ReadExtent(tag, a, at, NO_EXTENT).Got? { ExtentLocal(tag, a, b, at, at', NO_EXTENT); }
    if m.AMerge? {
      var src, dst := OrEmpty(m.merge.srcExtent), OrEmpty(m.merge.dstExtent);
      if ReadExtent(tag, a, at, src).Got? { ExtentLocal(tag, a, b, at, at', src); }
      if ReadExtent(tag, a, at, dst).Got? { ExtentLocal(tag, a, b, at, at', dst); }
    }
  }

  lemma SkipFieldLocal(m: Message, a: Bytes, b: Bytes, at: nat, at': nat)
    requires SkipField(m, a, at).Got? && at' + |a| + |b| < TWO63
    ensures SkipField(m, a + b, at') == SkipField(m, a, at)
  {
    hide Skip;
    var n := Skip(a, 0, 0).len;
    var r := SkippedIsRecord(a, 0);
    assert a + b == a[..n] + (a[n..] + b);
    SkipRecord(r, a[n..] + b, 0, 0);
  }

  lemma StepLocal(m: Message, a: Bytes, b: Bytes, at: nat, at': nat)
    requires Step(m, a, at).Got? && at' + |a| + |b| < TWO63
    ensures Step(m, a + b, at') == Step(m, a, at)
  {
    hide ReadVarint, SetField, SkipField;
    ReadLocal(a, b);
    var Got(tag, n) := ReadTag(a);
    DropAppend(a, b, n);
    if Known(m, tag.field) {
      SetFieldLocal(m, tag, a[n..], b, at + n, at' + n);
    } else {
      SkipFieldLocal(m, a, b, at, at');
    }
  }

  // ---- The loop is a fold --------------------------------------------------------------

  /** Where in the slice the bytes lie does not matter for success or for the message. */
  predicate Agree(a: Result, b: Result) {
    a.Ok? == b.Ok? && (a.Ok? ==> a == b)
  }

  lemma {:induction false} RunRelocates(m: Message, s: Bytes, at: nat, at': nat)
    requires at + |s| < TWO63 && at' + |s| < TWO63
    ensures Agree(Run(m, s, at), Run(m, s, at'))
    decreases |s|
  {
    hide Step;
    if s != [] {
      assert s + [] == s;
      if Step(m, s, at).Got? {
        StepLocal(m, s, [], at, at');
        var Got(m', n) := Step(m, s, at);
        RunRelocates(m', s[n..], at + n, at' + n);
      } else if Step(m, s, at').Got? {
        StepLocal(m, s, [], at', at);
      }
    }
  }

  /** Once `a` has parsed cleanly, the loop continues on `b` with the message it has. */
  lemma {:induction false} RunAppend(m: Message, a: Bytes, b: Bytes, at: nat)
    requires Run(m, a, at).Ok? && at + |a| + |b| < TWO63
    ensures Run(m, a + b, at) == Run(Run(m, a, at).message, b, at + |a|)
    decreases |a|
  {
    hide Step;
    if a == [] {
      assert a + b == b;
    } else {
      StepLocal(m, a, b, at, at);
      var Got(m', n) := Step(m, a, at);
      DropAppend(a, b, n);
      RunAppend(m', a[n..], b, at + n);
    }
  }

  /** Parsing is a fold over records: running on a ++ b is running on `a`, then on `b` into
      the same message. */
  lemma RunIsFold(m: Message, a: Bytes, b: Bytes)
    requires Run(m, a, 0).Ok? && |a| + |b| < TWO63
    ensures Agree(Run(m, a + b, 0), Run(Run(m, a, 0).message, b, 0))
  {
    RunAppend(m, a, b, 0);
    RunRelocates(Run(m, a, 0).message, b, |a|, 0);
  }

  // ---- Unknown fields ----------------------------------------------------------------

  /** The field number of a record, as the loop sees it. */
  function FieldNumber(r: Record): int32 {
    match ReadVarint(r.tag)
    case Got(u, _) => ToInt32(u / 8)
    case Bad(_) => 0
  }

  predicate Unknown(m: Message, r: Record) {
    FieldNumber(r) > 0 && !Known(m, FieldNumber(r))
  }

  lemma RecordStartsWithTag(r: Record, rest: Bytes)
    requires WellFormed(r)
    ensures ReadVarint(Encoding(r) + rest) == ReadVarint(r.tag)
    ensures ReadVarint(r.tag).Got? && ReadVarint(r.tag).value % 8 != 4
  {
    hide ReadVarint;
    var body := match r
      case VarintRecord(tag, payload) => payload
      case Fixed64Record(tag, payload) => payload
      case Delimited(tag, length, payload) => length + payload
      case Group(tag, items, endTag) => Encodings(items) + endTag
      case Fixed32Record(tag, payload) => payload;
    assert Encoding(r) + rest == r.tag + (body + rest);
    ReadVarintBytes(r.tag, body + rest);
    var wireType := if r.VarintRecord? then 0 else if r.Fixed64Record? then 1
                    else if r.Delimited? then 2 else if r.Group? then 3 else 5;
    TagReads(r.tag, wireType);
  }

  lemma StepOverUnknown(m: Message, r: Record, rest: Bytes, at: nat)
    requires WellFormed(r) && Unknown(m, r) && at + |Encoding(r)| + |rest| < TWO63
    ensures Step(m, Encoding(r) + rest, at) == Got(m, |Encoding(r)|)
  {
    hide ReadVarint, SetField, Skip, WellFormed, Encoding, Known;
    RecordStartsWithTag(r, rest);
    SkipRecord(r, rest, 0, 0);
  }

  lemma RunOverUnknown(m: Message, r: Record, rest: Bytes, at: nat)
    requires WellFormed(r) && Unknown(m, r) && at + |Encoding(r)| + |rest| < TWO63
    ensures Run(m, Encoding(r) + rest, at) == Run(m, rest, at + |Encoding(r)|)
  {
    hide Step, WellFormed, Encoding;
    StepOverUnknown(m, r, rest, at);
    assert (Encoding(r) + rest)[|Encoding(r)|..] == rest;
  }

  /** Forward compatibility: a well-formed record with an unknown field number, put between two
      records, changes neither the outcome nor the message, whatever it holds. */
  lemma UnknownRecordIsIgnored(m: Message, a: Bytes, r: Record, b: Bytes)
    requires Run(m, a, 0).Ok? && WellFormed(r) && Unknown(m, r)
    requires |a| + |Encoding(r)| + |b| < TWO63
    ensures Agree(Run(m, a + Encoding(r) + b, 0), Run(m, a + b, 0))
  {
    hide Run, WellFormed, Encoding, Unknown;
    var m' := Run(m, a, 0).message;
    var e := Encoding(r);
    assert a + e + b == a + (e + b);
    RunAppend(m, a, e + b, 0);
    assert Unknown(m', r) by { UnknownByKind(m, m', r); }
    RunOverUnknown(m', r, b, |a|);
    RunAppend(m, a, b, 0);
    RunRelocates(m', b, |a|, |a| + |e|);
  }

  lemma UnknownByKind(m: Message, m': Message, r: Record)
    requires Unknown(m, r) && SameKind(m, m')
    ensures Unknown(m', r)
  {
  }

  // ---- Only records are accepted --------------------------------------------------------

  /** A known field is a varint or a length-delimited payload, nothing else. */
  lemma SetFieldShape(m: Message, tag: Tag, s: Bytes, at: nat)
    requires Known(m, tag.field) && SetField(m, tag, s, at).Got?
    ensures tag.wireType in {0, 2} && ReadVarint(s).Got?
    ensures tag.wireType == 0 ==> SetField(m, tag, s, at).len == ReadVarint(s).len
    ensures tag.wireType == 2 ==> ReadVarint(s).len + ReadVarint(s).value <= |s|
    ensures tag.wireType == 2 ==> SetField(m, tag, s, at).len == ReadVarint(s).len + ReadVarint(s).value
    ensures tag.wireType == 2 ==> ToInt64(ReadVarint(s).value) >= 0
  {
    hide ReadVarint, Run;
  }

  datatype Shape = ScalarShape | BytesShape | ExtentShape

  /** What kind of payload a known field takes. */
  function FieldShape(m: Message, field: int32): Shape
    requires Known(m, field)
  {
    match m
    case AnExtent(_) => ScalarShape
    case AnOperation(_, _) => if field in {4, 6} then ExtentShape else if field in {8, 9} then BytesShape else ScalarShape
    case AMerge(_) => if field in {2, 3} then ExtentShape else ScalarShape
  }

  /** The records the loop lets pass: any with an unknown field number, and those of the right wire
      type with a known one, if the loop for extents takes a nested payload. */
  predicate Passes(m: Message, r: Record) {
    && FieldNumber(r) > 0
    && (Known(m, FieldNumber(r)) ==>
          match FieldShape(m, FieldNumber(r))
          case ScalarShape => r.VarintRecord?
          case BytesShape => r.Delimited?
          case ExtentShape => r.Delimited? && Run(AnExtent(NO_EXTENT), r.payload, 0).Ok?)
  }

  predicate AllPass(m: Message, rs: seq<Record>) {
    rs == [] || (WellFormed(rs[0]) && Passes(m, rs[0]) && AllPass(m, rs[1..]))
  }

  lemma {:induction false} PassesByKind(m: Message, m': Message, rs: seq<Record>)
    requires SameKind(m, m')
    ensures AllPass(m, rs) <==> AllPass(m', rs)
  {
    hide Run, WellFormed;
    if rs != [] { PassesByKind(m, m', rs[1..]); }
  }

  lemma ExtentSetsAlike(e: Extent, f: Extent, tag: Tag, s: Bytes, at: nat)
    requires 1 <= tag.field <= 2
    ensures SetField(AnExtent(e), tag, s, at).Got? <==> SetField(AnExtent(f), tag, s, at).Got?
    ensures SetField(AnExtent(e), tag, s, at).Got? ==>
              SetField(AnExtent(e), tag, s, at).len == SetField(AnExtent(f), tag, s, at).len
  {
    hide ReadScalar;
  }

  lemma ExtentStepsAlike(e: Extent, f: Extent, s: Bytes, at: nat)
    ensures Step(AnExtent(e), s, at).Got? <==> Step(AnExtent(f), s, at).Got?
    ensures Step(AnExtent(e), s, at).Got? ==> Step(AnExtent(e), s, at).len == Step(AnExtent(f), s, at).len
  {
    hide ReadTag, Skip, SetField;
    if ReadTag(s).Got? && Known(AnExtent(e), ReadTag(s).value.field) {
      ExtentSetsAlike(e, f, ReadTag(s).value, s[ReadTag(s).len..], at + ReadTag(s).len);
    }
  }

  /** What an extent holds has no influence on what can be read into it. */
  lemma {:induction false} ExtentAcceptsAlike(e: Extent, f: Extent, s: Bytes, at: nat)
    ensures Run(AnExtent(e), s, at).Ok? <==> Run(AnExtent(f), s, at).Ok?
    decreases |s|
  {
    hide Step;
    ExtentStepsAlike(e, f, s, at);
    if s != [] && Step(AnExtent(e), s, at).Got? {
      var a, b := Step(AnExtent(e), s, at), Step(AnExtent(f), s, at);
      ExtentAcceptsAlike(a.value.extent, b.value.extent, s[a.len..], at + a.len);
    }
  }

  /** The payload of a field that was set. */
  lemma SetFieldFits(m: Message, tag: Tag, s: Bytes, at: nat)
    requires Known(m, tag.field) && SetField(m, tag, s, at).Got?
    ensures FieldShape(m, tag.field).ScalarShape? <==> tag.wireType == 0
    ensures FieldShape(m, tag.field).ExtentShape? ==>
              ReadPayload(tag, s, at).Got? && Run(AnExtent(NO_EXTENT), ReadPayload(tag, s, at).value, 0).Ok?
  {
    hide ReadVarint, Run;
    if FieldShape(m, tag.field).ExtentShape? {
      var payload := ReadPayload(tag, s, at).value;
      if m.AMerge? {
        ExtentAcceptsAlike(NO_EXTENT, OrEmpty(m.merge.srcExtent), payload, 0);
        ExtentAcceptsAlike(NO_EXTENT, OrEmpty(m.merge.dstExtent), payload, 0);
      }
    }
  }

  /** The varint, or the length with its payload, at the front of `t`. */
  lemma DelimitedBefore(tag: Bytes, t: Bytes, u: nat, k: nat) returns (r: Record)
    requires IsTag(tag, 2) && ReadVarint(t) == Got(u, k) && k + u <= |t|
    ensures r.Delimited? && r.tag == tag && r.payload == t[k..k + u]
    ensures WellFormed(r) && Encoding(r) == tag + t[..k + u]
  {
    hide ReadVarint, IsVarint, IsTag;
    ReadShape(t);
    ReadVarintBytes(t[..k], t[k..]);
    assert t[..k] + t[k..] == t;
    assert t[..k] + t[k..k + u] == t[..k + u];
    r := Delimited(tag, t[..k], t[k..k + u]);
    assert tag + t[..k] + t[k..k + u] == tag + (t[..k] + t[k..k + u]);
  }

  lemma KnownPassesRecord(m: Message, tag: Tag, front: Bytes, t: Bytes, at: nat) returns (r: Record)
    requires Known(m, tag.field) && SetField(m, tag, t, at).Got? && IsTag(front, tag.wireType)
    ensures WellFormed(r) && r.tag == front && Encoding(r) == front + t[..SetField(m, tag, t, at).len]
    ensures FieldNumber(r) == tag.field ==> Passes(m, r)
  {
    hide ReadVarint, IsVarint, IsTag, SetField, Run, FieldNumber;
    SetFieldShape(m, tag, t, at);
    SetFieldFits(m, tag, t, at);
    var Got(u, k) := ReadVarint(t);
    if tag.wireType == 0 {
      ReadShape(t);
      r := VarintRecord(front, t[..k]);
    } else {
      r := DelimitedBefore(front, t, u, k);
    }
  }

  /** A record is taken apart and found to be one the loop accepts. */
  lemma StepPassesRecord(m: Message, s: Bytes, at: nat) returns (r: Record)
    requires Step(m, s, at).Got?
    ensures WellFormed(r) && Encoding(r) == s[..Step(m, s, at).len]
    ensures Passes(m, r)
  {
    hide ReadVarint, Skip, IsVarint, IsTag, SetField, Run, WellFormed, Encoding, FieldShape, Known;
    var Got(tag, n) := ReadTag(s);
    ReadTagBytes(s);
    ReadVarintBytes(s[..n], s[n..]) by { TagIsVarint(s); }
    assert s[..n] + s[n..] == s;
    if !Known(m, tag.field) {
      r := SkippedIsRecord(s, 0);
    } else {
      SplitAt(s, n, Step(m, s, at).len);
      r := KnownPassesRecord(m, tag, s[..n], s[n..], at + n);
    }
  }

  lemma TagIsVarint(s: Bytes)
    requires ReadVarint(s).Got?
    ensures IsVarint(s[..ReadVarint(s).len])
  {
    ReadShape(s);
  }

  lemma {:induction false} RunPassesRecords(m: Message, s: Bytes, at: nat) returns (rs: seq<Record>)
    requires Run(m, s, at).Ok?
    ensures AllPass(m, rs) && Encodings(rs) == s
    decreases |s|
  {
    hide Step, WellFormed, Encoding, Passes;
    if s == [] {
      rs := [];
    } else {
      var r := StepPassesRecord(m, s, at);
      var Got(m', n) := Step(m, s, at);
      var more := RunPassesRecords(m', s[n..], at + n);
      PassesByKind(m, m', more);
      rs := [r] + more;
      assert rs[1..] == more;
      assert s == s[..n] + s[n..];
    }
  }

  lemma PayloadOfRecord(tag: Tag, length: Bytes, payload: Bytes, rest: Bytes, at: nat)
    requires tag.wireType == 2 && IsVarint(length) && ReadVarint(length) == Got(|payload|, |length|)
    requires at + |length| + |payload| + |rest| < TWO63
    ensures ReadPayload(tag, length + payload + rest, at) == Got(payload, |length| + |payload|)
  {
    hide IsVarint, ReadVarint;
    assert length + payload + rest == length + (payload + rest);
    ReadVarintBytes(length, payload + rest);
    assert (length + payload + rest)[|length|..|length| + |payload|] == payload;
  }

  /** The switch takes exactly the rest of a record that passes. */
  lemma SetFieldAccepts(m: Message, r: Record, tag: Tag, body: Bytes, rest: Bytes, at: nat)
    requires Known(m, tag.field) && WellFormed(r) && Passes(m, r) && FieldNumber(r) == tag.field
    requires r.VarintRecord? ==> tag.wireType == 0 && body == r.payload
    requires r.Delimited? ==> tag.wireType == 2 && body == r.length + r.payload
    requires at + |body| + |rest| < TWO63
    ensures SetField(m, tag, body + rest, at).Got? && SetField(m, tag, body + rest, at).len == |body|
  {
    hide ReadVarint, IsVarint, IsTag, FieldNumber, Run;
    if r.VarintRecord? {
      ReadVarintBytes(r.payload, rest);
    } else {
      hide ReadPayload;
      PayloadOfRecord(tag, r.length, r.payload, rest, at);
      if m.AMerge? {
        ExtentAcceptsAlike(NO_EXTENT, OrEmpty(m.merge.srcExtent), r.payload, 0);
        ExtentAcceptsAlike(NO_EXTENT, OrEmpty(m.merge.dstExtent), r.payload, 0);
      }
    }
  }

  /** What stands behind the tag of a record with a known number. */
  lemma BodyOf(m: Message, r: Record) returns (body: Bytes)
    requires Known(m, FieldNumber(r)) && Passes(m, r)
    ensures r.VarintRecord? || r.Delimited?
    ensures body == if r.VarintRecord? then r.payload else r.length + r.payload
    ensures Encoding(r) == r.tag + body
  {
    hide FieldNumber, Run;
    body := if r.VarintRecord? then r.payload else r.length + r.payload;
    assert r.Delimited? ==> r.tag + r.length + r.payload == r.tag + (r.length + r.payload);
  }

  lemma StepAccepts(m: Message, r: Record, rest: Bytes, at: nat)
    requires WellFormed(r) && Passes(m, r) && at + |Encoding(r)| + |rest| < TWO63
    ensures Step(m, Encoding(r) + rest, at).Got? && Step(m, Encoding(r) + rest, at).len == |Encoding(r)|
  {
    hide ReadVarint, IsVarint, IsTag, SetField, Run, FieldShape;
    var s := Encoding(r) + rest;
    if !Known(m, FieldNumber(r)) {
      StepOverUnknown(m, r, rest, at);
    } else {
      RecordStartsWithTag(r, rest);
      var body := BodyOf(m, r);
      assert s[|r.tag|..] == body + rest;
      TagReads(r.tag, if r.VarintRecord? then 0 else 2);
      var tag := ReadTag(s).value;
      SetFieldAccepts(m, r, tag, body, rest, at + |r.tag|);
    }
  }

  lemma {:induction false} RunAcceptsRecords(m: Message, rs: seq<Record>, at: nat)
    requires AllPass(m, rs) && at + |Encodings(rs)| < TWO63
    ensures Run(m, Encodings(rs), at).Ok?
    decreases rs
  {
    hide Step, WellFormed, Encoding, Passes;
    if rs != [] {
      var e, more := Encoding(rs[0]), Encodings(rs[1..]);
      StepAccepts(m, rs[0], more, at);
      var m' := Step(m, e + more, at).value;
      assert (e + more)[|e|..] == more;
      PassesByKind(m, m', rs[1..]);
      RunAcceptsRecords(m', rs[1..], at + |e|);
    }
  }

  /** Exactly the lists of records that the loop lets pass are parsed, end to end. */
  lemma RunPassesIff(m: Message, s: Bytes)
    requires |s| < TWO63
    ensures Run(m, s, 0).Ok? <==> exists rs :: AllPass(m, rs) && Encodings(rs) == s
  {
    hide Run, AllPass, Encodings;
    if Run(m, s, 0).Ok? {
      var rs := RunPassesRecords(m, s, 0);
    }
    if rs :| AllPass(m, rs) && Encodings(rs) == s {
      RunAcceptsRecords(m, rs, 0);
    }
  }
}
