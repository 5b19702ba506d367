/** Where a tag was read: a device and one of its antennas, and the string that names the pair. */
module Locations {

  datatype Location = Location(deviceName: string, antennaID: nat) {
    predicate IsEmpty() {
      deviceName == "" && antennaID == 0
    }

    /** The device name, an underscore, and the antenna in decimal. */
    function String(): string {
      deviceName + "_" + Itoa(antennaID)
    }
  }

  const NOWHERE := Location("", 0)

  predicate IsDigit(c: char) {
    '0' <= c <= '9'
  }

  function Digit(d: nat): (c: char)
    requires d < 10
    ensures IsDigit(c)
  {
    ('0' as int + d) as char
  }

  /** Decimal notation without leading zeros. */
  function Itoa(n: nat): (s: string)
    ensures |s| > 0
    ensures forall i :: 0 <= i < |s| ==> IsDigit(s[i])
  {
    if n < 10 then [Digit(n)] else Itoa(n / 10) + [Digit(n % 10)]
  }

  /** The number that a string of digits denotes. */
  function Decimal(s: string): nat
    requires forall i :: 0 <= i < |s| ==> IsDigit(s[i])
  {
    if s == "" then 0
    else
      assert IsDigit(s[|s| - 1]);
      10 * Decimal(s[..|s| - 1]) + (s[|s| - 1] as int - '0' as int)
  }

  lemma {:induction false} ItoaDenotes(n: nat)
    ensures Decimal(Itoa(n)) == n
    ensures n > 0 ==> Itoa(n)[0] != '0'
  {
    var s := Itoa(n);
    assert s[|s| - 1] as int - '0' as int == n % 10;
    if n >= 10 {
      ItoaDenotes(n / 10);
      assert s[..|s| - 1] == Itoa(n / 10);
    } else {
      assert s[..|s| - 1] == "";
    }
  }

  /** The printed name: the device name, an underscore, and the antenna in decimal, without leading zeros. */
  lemma PrintedName(loc: Location)
    ensures exists digits: string ::
              && loc.String() == loc.deviceName + "_" + digits
              && digits != "" && (forall i :: 0 <= i < |digits| ==> IsDigit(digits[i]))
              && Decimal(digits) == loc.antennaID && (loc.antennaID > 0 ==> digits[0] != '0')
              && (loc.antennaID == 0 ==> digits == "0")
  {
    ItoaDenotes(loc.antennaID);
  }

  lemma {:induction false} ItoaInjective(m: nat, n: nat)
    requires Itoa(m) == Itoa(n)
    ensures m == n
  {
    var s, t := Itoa(m), Itoa(n);
    assert s[|s| - 1] == Digit(m % 10) && t[|t| - 1] == Digit(n % 10);
    if m >= 10 && n >= 10 {
      assert s[..|s| - 1] == Itoa(m / 10) && t[..|t| - 1] == Itoa(n / 10);
      ItoaInjective(m / 10, n / 10);
    }
  }

  /** The printed name identifies the location, even for device names that contain underscores
      and digits: the last underscore is always the separator. */
  lemma StringInjective(a: Location, b: Location)
    ensures a.String() == b.String() <==> a == b
  {
    if a.String() == b.String() {
      var i, j := Itoa(a.antennaID), Itoa(b.antennaID);
      var s := a.String();
      if |i| < |j| {
        SeparatorIsNotADigit(a, b);
      } else if |j| < |i| {
        SeparatorIsNotADigit(b, a);
      } else {
        assert i == s[|s| - |i|..] && j == s[|s| - |j|..];
        ItoaInjective(a.antennaID, b.antennaID);
        assert a.deviceName == s[..|s| - |i| - 1] && b.deviceName == s[..|s| - |j| - 1];
      }
    }
  }

  lemma SeparatorIsNotADigit(a: Location, b: Location)
    requires |Itoa(a.antennaID)| < |Itoa(b.antennaID)|
    ensures a.String() != b.String()
  {
    var i, j := Itoa(a.antennaID), Itoa(b.antennaID);
    var k := |a.deviceName|;
    assert a.String()[k] == '_';
    if |a.String()| == |b.String()| {
      assert b.String()[k] == j[k - |b.deviceName| - 1];
    }
  }
}
