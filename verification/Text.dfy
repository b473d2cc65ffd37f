/** Splitting at a separator byte and joining again. */
module Text {
  import opened Words

  /** strings.Split / bytes.Split with a one-byte separator: always at least one part. */
  function Split(s: Bytes, sep: byte): (parts: seq<Bytes>)
    ensures |parts| >= 1
  {
    if s == [] then [[]]
    else
      var rest := Split(s[1..], sep);
      if s[0] == sep then [[]] + rest else [[s[0]] + rest[0]] + rest[1..]
  }

  /** bytes.Join with a one-byte separator. */
  function Join(parts: seq<Bytes>, sep: byte): Bytes {
    if parts == [] then []
    else if |parts| == 1 then parts[0]
    else parts[0] + [sep] + Join(parts[1..], sep)
  }

  predicate FreeOf(part: Bytes, sep: byte) {
    sep !in part
  }

  predicate AllFreeOf(parts: seq<Bytes>, sep: byte) {
    forall i :: 0 <= i < |parts| ==> FreeOf(parts[i], sep)
  }

  lemma {:induction false} SplitPart(part: Bytes, rest: Bytes, sep: byte)
    requires FreeOf(part, sep)
    ensures Split(part, sep) == [part]
    ensures Split(part + [sep] + rest, sep) == [part] + Split(rest, sep)
  {
    if part == [] {
      assert part + [sep] + rest == [sep] + rest;
      assert ([sep] + rest)[1..] == rest;
    } else {
      SplitPart(part[1..], rest, sep);
      assert part == [part[0]] + part[1..];
      assert (part + [sep] + rest)[1..] == part[1..] + [sep] + rest;
    }
  }

  lemma {:induction false} SplitJoin(parts: seq<Bytes>, sep: byte)
    requires parts != [] && AllFreeOf(parts, sep)
    ensures Split(Join(parts, sep), sep) == parts
  {
    if |parts| == 1 {
      SplitPart(parts[0], [], sep);
    } else {
      SplitPart(parts[0], Join(parts[1..], sep), sep);
      SplitJoin(parts[1..], sep);
    }
  }

  lemma {:induction false} SplitIsFree(s: Bytes, sep: byte)
    ensures AllFreeOf(Split(s, sep), sep)
  {
    if s != [] {
      SplitIsFree(s[1..], sep);
      var rest := Split(s[1..], sep);
      assert FreeOf(rest[0], sep);
    }
  }

  lemma {:induction false} JoinSplit(s: Bytes, sep: byte)
    ensures Join(Split(s, sep), sep) == s
  {
    if s != [] {
      JoinSplit(s[1..], sep);
      var rest := Split(s[1..], sep);
      assert s == [s[0]] + s[1..];
      if s[0] == sep {
        assert ([[]] + rest)[1..] == rest;
      } else {
        var parts := [[s[0]] + rest[0]] + rest[1..];
        assert parts[1..] == rest[1..];
        assert Join(rest, sep) == if |rest| == 1 then rest[0] else rest[0] + [sep] + Join(rest[1..], sep);
      }
    }
  }
}
