/** The tag reports an LLRP reader sends, reduced to the parameters the inventory and the
    report decompression use. A parameter that was not sent is absent from `optional`. */
module TagReports {
  import opened Basics

  datatype Field =
    | ROSpecID | SpecIndex | InventoryParameterSpecID | AntennaID | PeakRSSI
    | ChannelIndex | FirstSeenUTC | LastSeenUTC | TagSeenCount

  /** The integer range of each parameter; timestamps are microseconds that fit an int64. */
  predicate InRange(f: Field, v: int) {
    match f
    case ROSpecID => 0 <= v < 0x1_0000_0000
    case PeakRSSI => -0x80 <= v < 0x80
    case FirstSeenUTC => 0 <= v < 0x8000_0000_0000_0000
    case LastSeenUTC => 0 <= v < 0x8000_0000_0000_0000
    case _ => 0 <= v < 0x1_0000
  }

  type Optionals = m: map<Field, int> | forall f :: f in m ==> InRange(f, m[f]) witness map[]

  datatype ReadOpSpecResult = ReadOpSpecResult(resultType: uint8, data: seq<uint16>)

  datatype Custom = Custom(vendorID: uint32, subtype: uint32, data: seq<uint8>)

  const PEN_IMPINJ: uint32 := 25882
  const IMPINJ_PEAK_RSSI: uint32 := 57

  datatype TagReportData = TagReportData(
    epcData: seq<uint8>,
    epc96: seq<uint8>,
    optional: Optionals,
    readResult: Option<ReadOpSpecResult>,
    custom: seq<Custom>)
  {
    function Get(f: Field): (v: Option<int>)
      ensures v.Some? ==> InRange(f, v.value)
    {
      if f in optional then Some(optional[f]) else None
    }

    function EPC(): string {
      if |epc96| > 0 then Hex(epc96) else Hex(epcData)
    }

    /** Impinj's own RSSI parameter (in hundredths of a dBm) is preferred to the standard one. */
    function ExtractRSSI(): Option<real> {
      match ImpinjRSSI(custom)
      case Some(rssi) => Some(rssi)
      case None => if PeakRSSI in optional then Some(optional[PeakRSSI] as real) else None
    }

    function ReadDataAsHex(): Option<string> {
      if readResult.Some? && readResult.value.resultType == 0
      then Some(HexWords(readResult.value.data))
      else None
    }
  }

  function Int16(hi: uint8, lo: uint8): (v: int)
    ensures -0x8000 <= v < 0x8000
  {
    var u := 0x100 * hi + lo;
    if u < 0x8000 then u else u - 0x1_0000
  }

  function ImpinjRSSI(custom: seq<Custom>): Option<real> {
    if custom == [] then None
    else
      var c := custom[0];
      if c.vendorID == PEN_IMPINJ && c.subtype == IMPINJ_PEAK_RSSI && |c.data| == 2
      then Some(Int16(c.data[0], c.data[1]) as real / 100.0)
      else ImpinjRSSI(custom[1..])
  }

  const RSSI_MIN := -327.68
  const RSSI_MAX := 327.67

  lemma {:induction false} ImpinjRSSIRange(custom: seq<Custom>)
    ensures var r := ImpinjRSSI(custom); r.Some? ==> RSSI_MIN <= r.value <= RSSI_MAX
  {
    if custom != [] {
      ImpinjRSSIRange(custom[1..]);
    }
  }

  /** Vendor 25882 is Impinj; its parameter 57 is the peak RSSI in two bytes. */
  predicate IsImpinjPeakRSSI(c: Custom) {
    c.vendorID == 25882 && c.subtype == 57 && |c.data| == 2
  }

  lemma {:induction false} ImpinjRSSIFirst(custom: seq<Custom>, i: nat)
    requires i < |custom| && IsImpinjPeakRSSI(custom[i])
    requires forall j :: 0 <= j < i ==> !IsImpinjPeakRSSI(custom[j])
    ensures ImpinjRSSI(custom) == Some(Int16(custom[i].data[0], custom[i].data[1]) as real / 100.0)
  {
    if i > 0 {
      assert !IsImpinjPeakRSSI(custom[0]);
      assert forall j :: 0 <= j < |custom| - 1 ==> custom[1..][j] == custom[j + 1];
      ImpinjRSSIFirst(custom[1..], i - 1);
    }
  }

  lemma {:induction false} ImpinjRSSINone(custom: seq<Custom>)
    requires forall j :: 0 <= j < |custom| ==> !IsImpinjPeakRSSI(custom[j])
    ensures ImpinjRSSI(custom) == None
  {
    if custom != [] {
      ImpinjRSSINone(custom[1..]);
    }
  }

  /** Impinj's parameter takes precedence, the first of them if there are several: a big-endian number of
      hundredths of a dBm in two's complement. */
  lemma ExtractedRSSI(rt: TagReportData, i: nat)
    requires i < |rt.custom| && IsImpinjPeakRSSI(rt.custom[i])
    requires forall j :: 0 <= j < i ==> !IsImpinjPeakRSSI(rt.custom[j])
    ensures var hi: int, lo: int := rt.custom[i].data[0], rt.custom[i].data[1];
            rt.ExtractRSSI() == Some((0x100 * hi + lo - (if hi >= 0x80 then 0x1_0000 else 0)) as real / 100.0)
  {
    ImpinjRSSIFirst(rt.custom, i);
    Int16Means(rt.custom[i].data[0], rt.custom[i].data[1]);
    hide ImpinjRSSI, Int16;
  }

  /** Without one it is the standard parameter's whole number of dBm, if there is any. */
  lemma StandardRSSI(rt: TagReportData)
    requires forall j :: 0 <= j < |rt.custom| ==> !IsImpinjPeakRSSI(rt.custom[j])
    ensures rt.ExtractRSSI() == if PeakRSSI in rt.optional then Some(rt.optional[PeakRSSI] as real) else None
  {
    ImpinjRSSINone(rt.custom);
    hide ImpinjRSSI;
  }

  /** Big-endian, in two's complement. */
  lemma Int16Means(hi: uint8, lo: uint8)
    ensures var h: int, l: int := hi, lo;
            Int16(hi, lo) == 0x100 * h + l - (if h >= 0x80 then 0x1_0000 else 0)
  {
  }

  /** Whatever a reader sends, the extracted RSSI lies in the range of a 16-bit centi-dBm. */
  lemma ExtractedRSSIRange(rt: TagReportData)
    ensures var r := rt.ExtractRSSI(); r.Some? ==> RSSI_MIN <= r.value <= RSSI_MAX
    ensures RSSI_MIN == -327.68 && RSSI_MAX == 327.67
  {
    ImpinjRSSIRange(rt.custom);
    if PeakRSSI in rt.optional {
      assert InRange(PeakRSSI, rt.optional[PeakRSSI]);
    }
  }

  // ---- Hexadecimal ----

  const HEX_CHARS := "0123456789abcdef"

  function Hex(bytes: seq<uint8>): string {
    if bytes == [] then "" else [HEX_CHARS[bytes[0] / 16], HEX_CHARS[bytes[0] % 16]] + Hex(bytes[1..])
  }

  function BigEndian(words: seq<uint16>): seq<uint8> {
    if words == [] then [] else [words[0] / 0x100, words[0] % 0x100] + BigEndian(words[1..])
  }

  function HexWords(words: seq<uint16>): string {
    Hex(BigEndian(words))
  }

  /** What a digit denotes; 16 for anything else. */
  function DigitValue(c: char): nat {
    if '0' <= c <= '9' then c as int - '0' as int
    else if 'a' <= c <= 'f' then c as int - 'a' as int + 10
    else 16
  }

  /** Two lower-case digits for each byte, in order. */
  lemma {:induction false} HexDenotes(bytes: seq<uint8>, k: nat)
    requires k < |bytes|
    ensures |Hex(bytes)| == 2 * |bytes|
    ensures DigitValue(Hex(bytes)[2 * k]) < 16 && DigitValue(Hex(bytes)[2 * k + 1]) < 16
    ensures 0x10 * DigitValue(Hex(bytes)[2 * k]) + DigitValue(Hex(bytes)[2 * k + 1]) == bytes[k]
  {
    HexLength(bytes);
    HexCharDenotes(bytes[0] / 16);
    HexCharDenotes(bytes[0] % 16);
    if k > 0 {
      HexDenotes(bytes[1..], k - 1);
      assert Hex(bytes)[2..] == Hex(bytes[1..]);
      assert Hex(bytes)[2 * k] == Hex(bytes[1..])[2 * (k - 1)];
      assert Hex(bytes)[2 * k + 1] == Hex(bytes[1..])[2 * (k - 1) + 1];
    }
  }

  lemma {:induction false} HexLength(bytes: seq<uint8>)
    ensures |Hex(bytes)| == 2 * |bytes|
  {
    if bytes != [] {
      HexLength(bytes[1..]);
    }
  }

  lemma HexCharDenotes(d: nat)
    requires d < 16
    ensures DigitValue(HEX_CHARS[d]) == d
  {
  }

  /** Each word gives two bytes, the greater part first. */
  lemma {:induction false} BigEndianDenotes(words: seq<uint16>, k: nat)
    requires k < |words|
    ensures |BigEndian(words)| == 2 * |words|
    ensures var hi: int, lo: int := BigEndian(words)[2 * k], BigEndian(words)[2 * k + 1];
            0x100 * hi + lo == words[k]
  {
    BigEndianLength(words);
    if k > 0 {
      BigEndianDenotes(words[1..], k - 1);
      assert BigEndian(words)[2..] == BigEndian(words[1..]);
      assert BigEndian(words)[2 * k] == BigEndian(words[1..])[2 * (k - 1)];
      assert BigEndian(words)[2 * k + 1] == BigEndian(words[1..])[2 * (k - 1) + 1];
    }
  }

  lemma {:induction false} BigEndianLength(words: seq<uint16>)
    ensures |BigEndian(words)| == 2 * |words|
  {
    if words != [] {
      BigEndianLength(words[1..]);
    }
  }

  /** Different byte strings never print alike, so different tags never share an inventory key. */
  lemma {:induction false} HexInjective(a: seq<uint8>, b: seq<uint8>)
    requires Hex(a) == Hex(b)
    ensures a == b
  {
    if a != [] && b != [] {
      assert Hex(a)[..2] == Hex(b)[..2];
      assert Hex(a)[2..] == Hex(a[1..]) && Hex(b)[2..] == Hex(b[1..]);
      var x, y := a[0], b[0];
      assert Hex(a)[0] == HEX_CHARS[x / 16] && Hex(a)[1] == HEX_CHARS[x % 16];
      assert Hex(b)[0] == HEX_CHARS[y / 16] && Hex(b)[1] == HEX_CHARS[y % 16];
      HexCharsDistinct(x / 16, y / 16);
      HexCharsDistinct(x % 16, y % 16);
      HexInjective(a[1..], b[1..]);
      assert a == [x] + a[1..] && b == [y] + b[1..];
    }
  }

  lemma HexCharsDistinct(i: nat, j: nat)
    requires i < 16 && j < 16
    ensures HEX_CHARS[i] == HEX_CHARS[j] ==> i == j
  {
  }

  lemma {:induction false} HexConcat(a: seq<uint8>, b: seq<uint8>)
    ensures Hex(a + b) == Hex(a) + Hex(b)
  {
    if a == [] {
      assert a + b == b;
    } else {
      assert (a + b)[1..] == a[1..] + b;
      HexConcat(a[1..], b);
    }
  }

  lemma {:induction false} BigEndianAppend(words: seq<uint16>, w: uint16)
    ensures BigEndian(words + [w]) == BigEndian(words) + [w / 0x100, w % 0x100]
  {
    if words == [] {
      assert words + [w] == [w];
    } else {
      assert (words + [w])[1..] == words[1..] + [w];
      BigEndianAppend(words[1..], w);
    }
  }

  lemma Nibbles(w: uint16)
    ensures w / 0x1000 % 16 == (w / 0x100) / 16 && w / 0x100 % 16 == (w / 0x100) % 16
    ensures w / 0x10 % 16 == (w % 0x100) / 16 && w % 16 == (w % 0x100) % 16
  {
    var hi, lo := w / 0x100, w % 0x100;
    NibblesOf(hi / 16, hi % 16, lo / 16, lo % 16, w);
  }

  lemma NibblesOf(a: nat, b: nat, c: nat, d: nat, w: nat)
    requires a < 16 && b < 16 && c < 16 && d < 16
    requires w == 0x1000 * a + 0x100 * b + 0x10 * c + d
    ensures w / 0x1000 == a && w / 0x100 == 16 * a + b && w / 0x10 == 0x100 * a + 16 * b + c
    ensures w / 0x100 % 16 == b && w / 0x10 % 16 == c && w % 16 == d
  {
  }

  lemma HexPair(hi: uint8, lo: uint8)
    ensures Hex([hi, lo]) == [HEX_CHARS[hi / 16], HEX_CHARS[hi % 16], HEX_CHARS[lo / 16], HEX_CHARS[lo % 16]]
  {
    assert [hi, lo][1..] == [lo] && [lo][1..] == [];
    assert Hex([lo]) == [HEX_CHARS[lo / 16], HEX_CHARS[lo % 16]];
  }

  lemma HexWordsAppend(words: seq<uint16>, w: uint16)
    ensures HexWords(words + [w]) == HexWords(words)
      + [HEX_CHARS[w / 0x1000 % 16], HEX_CHARS[w / 0x100 % 16], HEX_CHARS[w / 0x10 % 16], HEX_CHARS[w % 16]]
  {
    BigEndianAppend(words, w);
    HexConcat(BigEndian(words), [w / 0x100, w % 0x100]);
    HexPair(w / 0x100, w % 0x100);
    Nibbles(w);
  }

  /** The loop that writes four characters a word prints the words' big-endian bytes. */
  method WordsToHex(src: seq<uint16>) returns (s: string)
    ensures s == HexWords(src)
  {
    var dst := new char[|src| * 4];
    var i := 0;
    for k := 0 to |src|
      invariant i == 4 * k
      invariant dst[..i] == HexWords(src[..k])
    {
      var word := src[k];
      HexWordsAppend(src[..k], word);
      assert src[..k + 1] == src[..k] + [word];
      dst[i + 0] := HEX_CHARS[word / 0x1000 % 16];
      dst[i + 1] := HEX_CHARS[word / 0x100 % 16];
      dst[i + 2] := HEX_CHARS[word / 0x10 % 16];
      dst[i + 3] := HEX_CHARS[word % 16];
      i := i + 4;
    }
    assert src[..|src|] == src;
    return dst[..];
  }
}
