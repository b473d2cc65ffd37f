/** The hexadecimal numbers of an archive: what is read, in either case, and what is printed. */
module CpioHex {
  import opened Words
  import opened CpioFormat

  // ---- Hexadecimal numbers --------------------------------------------------------------------

  /** The character stands for the digit, in either case. */
  predicate Denotes(c: byte, d: nat) {
    d < 16 && (c as char == "0123456789abcdef"[d] || c as char == "0123456789ABCDEF"[d])
  }

  lemma DigitIff(c: byte, d: nat)
    ensures HexValue(c) == Some(d) <==> Denotes(c, d)
  {
  }

  predicate Spells(s: Bytes, ds: seq<nat>) {
    |s| == |ds| && forall i :: 0 <= i < |s| ==> Denotes(s[i], ds[i])
  }

  /** The number with these digits, the first one counting most. */
  function PlaceSum(ds: seq<nat>): nat {
    if ds == [] then 0 else ds[0] * Pow16(|ds| - 1) + PlaceSum(ds[1..])
  }

  lemma {:induction false} PlaceSumLast(ds: seq<nat>)
    requires ds != []
    ensures PlaceSum(ds) == 16 * PlaceSum(ds[..|ds| - 1]) + ds[|ds| - 1]
  {
    var n := |ds| - 1;
    if n == 0 {
      assert PlaceSum(ds[1..]) == 0 && PlaceSum(ds[..0]) == 0 && Pow16(0) == 1;
    } else {
      PlaceSumLast(ds[1..]);
      assert ds[..n][1..] == ds[1..][..n - 1];
      assert Pow16(n) == 16 * Pow16(n - 1);
      assert ds[0] * (16 * Pow16(n - 1)) == 16 * (ds[0] * Pow16(n - 1));
    }
  }

  lemma NoDigits()
    ensures PlaceSum([]) == 0
  {
  }

  lemma {:induction false} ParseSpelled(s: Bytes, ds: seq<nat>)
    requires Spells(s, ds)
    ensures ParseHex(s) == Some(PlaceSum(ds))
  {
    hide Denotes, HexValue, PlaceSum;
    if s == [] {
      assert PlaceSum(ds) == 0 by { NoDigits(); }
    } else {
      var n := |s| - 1;
      ParseSpelled(s[..n], ds[..n]);
      DigitIff(s[n], ds[n]);
      PlaceSumLast(ds);
    }
  }

  lemma {:induction false} ParsedIsSpelled(s: Bytes) returns (ds: seq<nat>)
    requires ParseHex(s).Some?
    ensures Spells(s, ds)
  {
    ds := [];
    if s != [] {
      var n := |s| - 1;
      var front := ParsedIsSpelled(s[..n]);
      DigitIff(s[n], HexValue(s[n]).value);
      ds := front + [HexValue(s[n]).value];
      assert forall i :: 0 <= i < n ==> s[..n][i] == s[i];
    }
  }

  /** A number is read exactly where eight characters are hexadecimal digits, in either case, and it is the one
      they spell. */
  lemma X8uIff(x: Bytes, n: uint32)
    ensures X8u(x) == Some(n) <==> |x| == 8 && exists ds :: Spells(x, ds) && PlaceSum(ds) == n
  {
    hide ParseHex, PlaceSum, Spells;
    if |x| == 8 {
      if X8u(x) == Some(n) {
        var ds := ParsedIsSpelled(x);
        ParseSpelled(x, ds);
      }
      if ds :| Spells(x, ds) && PlaceSum(ds) == n { ParseSpelled(x, ds); }
    }
  }

  predicate SameDigit(c: byte, d: byte) {
    exists v: nat :: v < 16 && Denotes(c, v) && Denotes(d, v)
  }

  lemma {:induction false} CommonDigits(x: Bytes, h: Bytes) returns (ds: seq<nat>)
    requires |x| == |h| && forall i :: 0 <= i < |x| ==> SameDigit(x[i], h[i])
    ensures Spells(x, ds) && Spells(h, ds)
  {
    hide Denotes;
    ds := [];
    if x != [] {
      var n := |x| - 1;
      ds := CommonDigits(x[..n], h[..n]);
      var v: nat :| v < 16 && Denotes(x[n], v) && Denotes(h[n], v);
      ds := ds + [v];
    }
  }

  /** Printed digits in another case read the same. */
  lemma RecasedReads(n: nat, x: Bytes)
    requires n < TWO32 && |x| == 8 && |Hex08(n)| == 8 && forall i :: 0 <= i < 8 ==> SameDigit(x[i], Hex08(n)[i])
    ensures X8u(x) == Some(n)
  {
    hide ParseHex, Hex08, PlaceSum, SameDigit, Spells;
    HexRoundTrip(n);
    var ds := CommonDigits(x, Hex08(n));
    ParseSpelled(x, ds);
    ParseSpelled(Hex08(n), ds);
  }

  // ---- What is printed -----------------------------------------------------------------------------

  predicate IsLower(s: Bytes) {
    forall i :: 0 <= i < |s| ==> 48 <= s[i] <= 57 || 97 <= s[i] <= 102
  }

  lemma {:induction false} DigitsAreLower(n: nat, width: nat)
    ensures IsLower(Digits(n, width))
  {
    if width > 0 { DigitsAreLower(n / 16, width - 1); }
  }

  lemma {:induction false} WidthIsTight(n: nat)
    ensures n < Pow16(HexWidth(n)) && (n >= 16 ==> n >= Pow16(HexWidth(n) - 1))
  {
    if n < 16 {
      assert Pow16(1) == 16 * Pow16(0);
    } else {
      WidthIsTight(n / 16);
      if n / 16 < 16 { assert HexWidth(n) == 2 && Pow16(1) == 16 * Pow16(0); }
    }
  }

  lemma {:induction false} WiderFits(n: nat, k: nat, l: nat)
    requires n < Pow16(k) && k <= l
    ensures n < Pow16(l)
    decreases l
  {
    if k < l { WiderFits(n, k, l - 1); }
  }

  /** Any number is printed in lower-case digits that spell it: eight of them, and more only if eight are not
      enough. */
  lemma HexPrints(n: nat)
    ensures IsLower(Hex08(n)) && ParseHex(Hex08(n)) == Some(n)
    ensures |Hex08(n)| >= 8 && (|Hex08(n)| > 8 ==> n >= Pow16(|Hex08(n)| - 1))
  {
    hide Digits, ParseHex, Pow16;
    var w := if HexWidth(n) > 8 then HexWidth(n) else 8;
    WidthIsTight(n);
    WiderFits(n, HexWidth(n), w);
    DigitsAreLower(n, w);
    ParseDigits(n, w);
  }
}
