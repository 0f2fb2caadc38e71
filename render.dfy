/** The text form of a parcel (`I2CParcel.__str__`): the direction letter, the
    address as `0x` and two upper-case hex digits in parentheses, then the data
    bytes in the same hex form joined by ", ". */
module Render {
  import opened Packets

  predicate IsHexDigit(c: char) {
    '0' <= c <= '9' || 'A' <= c <= 'F'
  }

  /** One upper-case hex digit. */
  function HexDigit(d: nat): (c: char)
    requires d < 16
    ensures IsHexDigit(c)
  {
    "0123456789ABCDEF"[d]
  }

  /** The value of one hex digit; the inverse of `HexDigit`. */
  function DigitValue(c: char): (d: nat)
    requires IsHexDigit(c)
    ensures d < 16
  {
    if c <= '9' then c as int - '0' as int else c as int - 'A' as int + 10
  }

  lemma DigitRoundTrip(d: nat)
    requires d < 16
    ensures DigitValue(HexDigit(d)) == d
  {
  }

  /** `n` in upper-case hex without leading zeros (but "0" for zero). */
  function Hex(n: nat): (s: string)
    ensures |s| >= 1
    ensures forall i :: 0 <= i < |s| ==> IsHexDigit(s[i])
  {
    if n < 16 then [HexDigit(n)] else Hex(n / 16) + [HexDigit(n % 16)]
  }

  /** Python's `"{:02X}".format(n)`: hex, left-padded with '0' to two digits. */
  function Format02X(n: nat): (s: string)
    ensures |s| >= 2
    ensures forall i :: 0 <= i < |s| ==> IsHexDigit(s[i])
  {
    if n < 16 then ['0', HexDigit(n)] else Hex(n)
  }

  /** The number a string of hex digits denotes, most significant digit first. */
  function HexValue(s: string): nat
    requires forall i :: 0 <= i < |s| ==> IsHexDigit(s[i])
  {
    if s == [] then 0 else 16 * HexValue(s[..|s| - 1]) + DigitValue(s[|s| - 1])
  }

  /** Reading the hex digits back gives the number; two digits below 256. */
  lemma {:induction false} HexRoundTrip(n: nat)
    ensures HexValue(Hex(n)) == n
    ensures n < 256 <==> |Hex(n)| <= 2
  {
    var s := Hex(n);
    if n < 16 {
      DigitRoundTrip(n);
    } else {
      HexRoundTrip(n / 16);
      DigitRoundTrip(n % 16);
      assert s[..|s| - 1] == Hex(n / 16);
    }
  }

  /** `{:02X}` is read back as the number it renders, and takes exactly two
      digits for a byte. */
  lemma Format02XRoundTrip(n: nat)
    ensures HexValue(Format02X(n)) == n
    ensures n < 256 <==> |Format02X(n)| == 2
  {
    HexRoundTrip(n);
    if n < 16 {
      var s := Format02X(n);
      assert s[..1] == ['0'];
      DigitRoundTrip(n);
    }
  }

  /** Python's `sep.join(items)`. */
  function Join(sep: string, items: seq<string>): string
    decreases |items|
  {
    if items == [] then ""
    else if |items| == 1 then items[0]
    else items[0] + sep + Join(sep, items[1..])
  }

  /** The rendering of one data byte, `"0x{:02X}"`. */
  function ByteString(b: nat): string {
    "0x" + Format02X(b)
  }

  /** The rendered data bytes of a parcel. */
  function DataStrings(ds: seq<nat>): (r: seq<string>)
    ensures |r| == |ds|
    ensures forall i :: 0 <= i < |ds| ==> r[i] == ByteString(ds[i])
  {
    seq(|ds|, i requires 0 <= i < |ds| => ByteString(ds[i]))
  }

  /** Joining `n` four-character items with ", " takes `6n - 2` characters, and
      item `i` sits at offset `6i`. */
  lemma {:induction false} JoinLayout(items: seq<string>)
    requires forall i :: 0 <= i < |items| ==> |items[i]| == 4
    ensures |Join(", ", items)| == if items == [] then 0 else 6 * |items| - 2
    ensures forall i :: 0 <= i < |items| ==> Join(", ", items)[6 * i .. 6 * i + 4] == items[i]
    decreases |items|
  {
    if |items| > 1 {
      var rest := items[1..];
      JoinLayout(rest);
      var j := Join(", ", items);
      assert j == items[0] + ", " + Join(", ", rest);
      forall i | 0 <= i < |items|
        ensures j[6 * i .. 6 * i + 4] == items[i]
      {
        if i > 0 {
          assert rest[i - 1] == items[i];
          assert j[6 * i .. 6 * i + 4] == Join(", ", rest)[6 * (i - 1) .. 6 * (i - 1) + 4];
        }
      }
    }
  }

  /** The direction letter and the bracketed address. */
  function Header(p: Parcel): string {
    (if p.isRead then "R" else "W") + "(0x" + Format02X(p.address) + ") "
  }

  /** `I2CParcel.__str__`. */
  function ParcelString(p: Parcel): string {
    Header(p) + Join(", ", DataStrings(p.data))
  }

  /** The header of a parcel with an address below 256 is eight characters,
      and the address reads back from characters 4-5. */
  lemma HeaderDecodes(p: Parcel)
    requires p.address < 256
    ensures var h := Header(p);
      && |h| == 8 && (h[0] == 'R' <==> p.isRead) && (h[0] == 'W' <==> !p.isRead)
      && h[1..4] == "(0x" && h[6..8] == ") "
      && h[4..6] == Format02X(p.address) && HexValue(h[4..6]) == p.address
  {
    Format02XRoundTrip(p.address);
    var h := Header(p);
    assert h[4..6] == Format02X(p.address);
  }

  /** The joined data bytes: byte `i` is "0x" and two hex digits at `6i`. */
  lemma DataDecodes(ds: seq<nat>)
    requires Bytes(ds)
    ensures var b := Join(", ", DataStrings(ds));
      && |b| == (if ds == [] then 0 else 6 * |ds| - 2)
      && forall i :: 0 <= i < |ds| ==>
           b[6 * i .. 6 * i + 4] == "0x" + Format02X(ds[i]) && HexValue(Format02X(ds[i])) == ds[i]
  {
    var items := DataStrings(ds);
    forall i | 0 <= i < |items| ensures |items[i]| == 4 {
      Format02XRoundTrip(ds[i]);
    }
    JoinLayout(items);
    forall i | 0 <= i < |ds| ensures HexValue(Format02X(ds[i])) == ds[i] {
      Format02XRoundTrip(ds[i]);
    }
  }

  /** A well-formed parcel renders in a fixed layout that can be read back: the
      letter says the direction, characters 4-5 the address, and data byte `i`
      is "0x" and two hex digits at offset `8 + 6i`. */
  lemma ParcelStringDecodes(p: Parcel)
    requires WellFormedParcel(p)
    ensures var s := ParcelString(p);
      && |s| == (if p.data == [] then 8 else 6 + 6 * |p.data|)
      && (s[0] == 'R' <==> p.isRead) && (s[0] == 'W' <==> !p.isRead)
      && s[1..4] == "(0x" && s[6..8] == ") "
      && HexValue(s[4..6]) == p.address
      && forall i :: 0 <= i < |p.data| ==>
           s[8 + 6 * i .. 12 + 6 * i] == "0x" + Format02X(p.data[i])
           && HexValue(Format02X(p.data[i])) == p.data[i]
  {
    var s := ParcelString(p);
    var h := Header(p);
    var b := Join(", ", DataStrings(p.data));
    HeaderDecodes(p);
    DataDecodes(p.data);
    assert s == h + b;
    assert s[..8] == h;
    assert s[4..6] == h[4..6];
    assert s[1..4] == h[1..4] && s[6..8] == h[6..8];
    forall i | 0 <= i < |p.data|
      ensures s[8 + 6 * i .. 12 + 6 * i] == b[6 * i .. 6 * i + 4]
    {
    }
  }
}
