/** Which error Unmarshal reports: that of the first record it cannot read. */
module MessageFaults {
  import opened Words
  import opened Varint
  import opened Wire
  import opened Messages
  import opened MessageLaws
  import opened MessageGrammar

  /** What one turn of a field loop makes of a tag that no record may begin with, or that is not one. */
  lemma TagFaults(m: Message, s: Bytes, at: nat)
    requires s != []
    ensures ReadVarint(s).Bad? ==> Step(m, s, at) == Bad(ReadVarint(s).error)
    ensures var tag := ReadVarint(s);
            && (tag.Got? && tag.value % 8 == 4 ==> Step(m, s, at) == Bad(EndGroupForNonGroup))
            && (tag.Got? && tag.value % 8 != 4 && ToInt32(tag.value / 8) <= 0 ==> Step(m, s, at) == Bad(IllegalTag))
  {
    hide ReadVarint, Skip, SetField, Known;
  }

  /** A field with no case of its own, where nothing can be skipped. */
  lemma UnknownFaults(m: Message, s: Bytes, at: nat)
    requires ReadTag(s).Got? && !Known(m, ReadTag(s).value.field)
    ensures Skip(s, 0, 0).NoSpan? ==> Step(m, s, at) == Bad(Skip(s, 0, 0).error)
    ensures Skip(s, 0, 0).Span? && at + Skip(s, 0, 0).len >= TWO63 ==> Step(m, s, at) == Bad(InvalidLength)
    ensures Skip(s, 0, 0).Span? && at + Skip(s, 0, 0).len < TWO63 && Skip(s, 0, 0).len > |s| ==>
              Step(m, s, at) == Bad(UnexpectedEOF)
  {
    hide ReadTag, Skip;
  }

  /** A known field, where the payload is not what its field takes; `s` follows the tag, `at` bytes in. */
  lemma KnownFaults(m: Message, tag: Tag, s: Bytes, at: nat)
    requires Known(m, tag.field)
    ensures var (shape, v, r) := (FieldShape(m, tag.field), ReadVarint(s), SetField(m, tag, s, at));
            if tag.wireType != (if shape.ScalarShape? then 0 else 2) then r == Bad(WrongWireType)
            else if v.Bad? then r == Bad(v.error)
            else if shape.ScalarShape? then r.Got?
            else if v.value >= TWO63 || at + v.len + v.value >= TWO63 then r == Bad(InvalidLength)
            else if v.len + v.value > |s| then r == Bad(UnexpectedEOF)
            else if shape.BytesShape? then r.Got?
            else match Run(AnExtent(IntoOf(m, tag.field)), s[v.len..v.len + v.value], 0)
              case Ok(_) => r.Got?
              case Err(e) => r == Bad(e)
  {
    hide ReadVarint, Run;
    if m.AnExtent? {
    } else if m.AMerge? {
    } else {
      OperationFaults(m, tag, s, at);
    }
  }

  lemma OperationFaults(m: Message, tag: Tag, s: Bytes, at: nat)
    requires m.AnOperation? && Known(m, tag.field)
    ensures match FieldShape(m, tag.field)
            case ScalarShape =>
              (match ReadScalar(tag, s) case Bad(e) => SetField(m, tag, s, at) == Bad(e)
                                        case Got(_, _) => SetField(m, tag, s, at).Got?)
            case BytesShape =>
              (match ReadPayload(tag, s, at) case Bad(e) => SetField(m, tag, s, at) == Bad(e)
                                             case Got(_, _) => SetField(m, tag, s, at).Got?)
            case ExtentShape =>
              (match ReadExtent(tag, s, at, NO_EXTENT) case Bad(e) => SetField(m, tag, s, at) == Bad(e)
                                                       case Got(_, _) => SetField(m, tag, s, at).Got?)
  {
    hide ReadScalar, ReadPayload, ReadExtent;
  }

  /** One turn of the loop fails as its field fails. */
  lemma StepFails(m: Message, s: Bytes, at: nat)
    requires ReadTag(s).Got? && Known(m, ReadTag(s).value.field)
    ensures var r := SetField(m, ReadTag(s).value, s[ReadTag(s).len..], at + ReadTag(s).len);
            r.Bad? ==> Step(m, s, at) == r
  {
    hide ReadTag, SetField;
  }

  /** The extent a nested field is read into. */
  function IntoOf(m: Message, field: int32): Extent {
    match m
    case AMerge(c) => OrEmpty(if field == 2 then c.srcExtent else c.dstExtent)
    case _ => NO_EXTENT
  }

  /** Behind records that are read, the first that cannot be read decides. (Unmarshal begins with the required
      field not seen.) */
  lemma FirstFaultDecides(m: Message, a: Bytes, b: Bytes, e: Error)
    requires Run(m, a, 0).Ok? && b != [] && |a| + |b| < TWO63 && (m.AnOperation? ==> !m.hasType)
    requires Step(Run(m, a, 0).message, b, |a|) == Bad(e)
    ensures Unmarshal(m, a + b) == Err(e)
  {
    hide Step;
    RunAppend(m, a, b, 0);
  }

  /** Records that can all be read, without the required one. */
  lemma MissingFieldDecides(m: Message, rs: seq<Record>, s: Bytes)
    requires m.AnOperation? && !m.hasType && IsMessage(m, rs, s) && |s| < TWO63 && !HasNumber(rs, 1)
    ensures Unmarshal(m, s) == Err(RequiredNotSet)
  {
    hide Run, Acceptable, Encodings, AllPass, HasNumber;
    AllPassIff(m, rs);
    RunNotes(m, rs, 0);
  }
}
