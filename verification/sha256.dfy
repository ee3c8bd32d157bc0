/** internal/common/sha256-struct.go: a hash as four 64-bit words, and its text form. */
module Sha256 {
  import opened Text
  import opened Wrappers

  type uint64 = x: nat | x < 0x1_0000_0000_0000_0000

  datatype SHA256 = SHA256(B0_7: uint64, B8_15: uint64, B16_23: uint64, B24_31: uint64) {
    predicate IsEmpty() { B0_7 == 0 && B8_15 == 0 && B16_23 == 0 && B24_31 == 0 }

    function ToLongHexString(): string {
      Digits(16, B0_7) + ("-" + (Digits(16, B8_15) + ("-" + (Digits(16, B16_23) + ("-" + Digits(16, B24_31))))))
    }
  }

  /** One %x, and the character that follows it in the format. */
  function ScanHex(s: string, after: string): (r: Option<Scanned<uint64>>)
    ensures r.Some? ==> |r.value.rest| < |s|
  {
    match ScanNumber(16, 0x1_0000_0000_0000_0000, s)
    case None => None
    case Some(n) => if after <= n.rest then Some(Scanned(n.value, n.rest[|after|..])) else None
  }

  /** The hash a text says; the empty one if it says none. */
  function FromLongHexString(s: string): SHA256 {
    var none := SHA256(0, 0, 0, 0);
    match ScanHex(s, "-") case None => none case Some(a) =>
    match ScanHex(a.rest, "-") case None => none case Some(b) =>
    match ScanHex(b.rest, "-") case None => none case Some(c) =>
    match ScanHex(c.rest, "") case None => none case Some(d) =>
    SHA256(a.value, b.value, c.value, d.value)
  }

  lemma ScanHexPrinted(n: uint64, after: string, rest: string)
    requires after + rest == [] || !IsDigit(16, (after + rest)[0])
    ensures ScanHex(Digits(16, n) + (after + rest), after) == Some(Scanned(n, rest))
  {
    hide Digits, ScanNumber;
    ScanPrinted(16, 0x1_0000_0000_0000_0000, n, after + rest);
    assert (after + rest)[|after|..] == rest;
  }

  /** Reading back what was printed. */
  lemma HexRoundTrip(h: SHA256)
    ensures FromLongHexString(h.ToLongHexString()) == h
  {
    hide Digits, ScanHex;
    var d := Digits(16, h.B24_31);
    var c := Digits(16, h.B16_23) + ("-" + d);
    var b := Digits(16, h.B8_15) + ("-" + c);
    ScanHexPrinted(h.B0_7, "-", b);
    ScanHexPrinted(h.B8_15, "-", c);
    ScanHexPrinted(h.B16_23, "-", d);
    ScanHexPrinted(h.B24_31, "", "");
    assert d + ("" + "") == d;
  }

  /** A text that does not begin like a hash says none. */
  lemma NoHash(s: string)
    requires s == [] || !IsDigit(16, s[0])
    ensures FromLongHexString(s).IsEmpty()
  {
  }

  /** The text is one word. */
  lemma HexHasNoSpace(h: SHA256)
    ensures h.ToLongHexString() != []
    ensures forall i :: 0 <= i < |h.ToLongHexString()| ==>
              h.ToLongHexString()[i] == '-' || IsDigit(16, h.ToLongHexString()[i])
  {
  }
}
