/**
 * Operating systems a machine can run, their display strings, and the
 * check an Ubuntu version string must pass when a machine description
 * is read: "YY.MM", two digits each, the month between 01 and 12.
 */
module Os {
  import opened Wrappers
  import Strs

  type String = Strs.String

  /** An unsigned 8-bit number. */
  type U8 = x: int | 0 <= x < 256

  datatype Linux =
    | Ubuntu(ubuntuVersion: String)
    | Debian(debianVersion: U8)
    | Arch

  datatype Os = Linux(linux: Linux)

  // ---------------------------------------------------------------------
  // Display
  // ---------------------------------------------------------------------

  predicate IsDigit(c: char) {
    '0' <= c <= '9'
  }

  function DigitChar(d: nat): (c: char)
    requires d < 10
    ensures IsDigit(c)
  {
    ['0', '1', '2', '3', '4', '5', '6', '7', '8', '9'][d]
  }

  function DigitValue(c: char): nat
    requires IsDigit(c)
  {
    (c as int) - ('0' as int)
  }

  /** A number in decimal, without leading zeros ("0" for zero). */
  function Decimal(n: nat): (r: String)
    ensures |r| >= 1 && forall i | 0 <= i < |r| :: IsDigit(r[i])
    ensures |r| > 1 ==> r[0] != '0'
    decreases n
  {
    if n < 10 then [DigitChar(n)] else Decimal(n / 10) + [DigitChar(n % 10)]
  }

  /** The number a string of decimal digits denotes. */
  function DecimalValue(s: String): nat
    requires forall i | 0 <= i < |s| :: IsDigit(s[i])
  {
    if |s| == 0 then 0 else DecimalValue(s[..|s| - 1]) * 10 + DigitValue(s[|s| - 1])
  }

  /** Writing a number in decimal and reading it back gives the number. */
  lemma {:induction false} DecimalRoundTrip(n: nat)
    ensures DecimalValue(Decimal(n)) == n
    decreases n
  {
    if n >= 10 {
      DecimalRoundTrip(n / 10);
      var r := Decimal(n);
      assert r[..|r| - 1] == Decimal(n / 10);
    }
    DigitRoundTrip(n % 10);
  }

  lemma DigitRoundTrip(d: nat)
    requires d < 10
    ensures DigitValue(DigitChar(d)) == d
  {
  }

  function LinuxDisplay(l: Linux): String {
    match l
    case Ubuntu(v) => "ubuntu-" + v
    case Debian(v) => "debian-" + Decimal(v)
    case Arch => "arch"
  }

  /** "linux-" followed by the distribution and its version. */
  function Display(os: Os): (r: String)
    ensures Strs.StartsWith(r, "linux-")
    ensures r[|"linux-"|..] == LinuxDisplay(os.linux)
  {
    "linux-" + LinuxDisplay(os.linux)
  }

  /** Different systems display differently. */
  lemma DisplayInjective(a: Os, b: Os)
    requires Display(a) == Display(b)
    ensures a == b
  {
    var la := LinuxDisplay(a.linux);
    var lb := LinuxDisplay(b.linux);
    assert la == lb;
    if a.linux.Debian? && b.linux.Debian? {
      DecimalRoundTrip(a.linux.debianVersion);
      DecimalRoundTrip(b.linux.debianVersion);
      assert la[7..] == Decimal(a.linux.debianVersion);
      assert lb[7..] == Decimal(b.linux.debianVersion);
    } else if a.linux.Ubuntu? && b.linux.Ubuntu? {
      assert la[7..] == a.linux.ubuntuVersion;
      assert lb[7..] == b.linux.ubuntuVersion;
    } else if a.linux != b.linux {
      // The first letters, or the letter after "ubuntu-"/"debian-" prefixes, tell the kinds apart.
      assert la[0] == lb[0];
    }
  }

  // ---------------------------------------------------------------------
  // Ubuntu versions
  // ---------------------------------------------------------------------

  datatype UbuntuVersionError = ExpectedYYMM | InvalidUbuntuVersion

  const ExpectedMessage: String := "Ubuntu: expected YY.MM"
  const InvalidMessage: String := "invalid Ubuntu version (expected YY.MM, with 01-12 for MM)"

  function ErrorMessage(e: UbuntuVersionError): String {
    match e
    case ExpectedYYMM => ExpectedMessage
    case InvalidUbuntuVersion => InvalidMessage
  }

  predicate AllDigits(s: String) {
    forall i | 0 <= i < |s| :: IsDigit(s[i])
  }

  /** Split at dots; exactly two pieces, then two digits each and a month of 1 to 12. */
  function ValidateUbuntuVersion(s: String): (r: Result<String, UbuntuVersionError>)
    ensures r.Ok? ==> r.value == s
  {
    var parts := Strs.Split(s, '.');
    if |parts| != 2 then Err(ExpectedYYMM)
    else
      var yy := parts[0];
      var mm := parts[1];
      var yearOk := |yy| == 2 && AllDigits(yy);
      var monthOk := |mm| == 2 && AllDigits(mm) && 1 <= DecimalValue(mm) <= 12;
      if yearOk && monthOk then Ok(s) else Err(InvalidUbuntuVersion)
  }

  /** The number of dots in a string. */
  function Dots(s: String): nat {
    if |s| == 0 then 0 else (if s[0] == '.' then 1 else 0) + Dots(s[1..])
  }

  lemma {:induction false} SplitDots(s: String)
    ensures |Strs.Split(s, '.')| == Dots(s) + 1
  {
    if |s| > 0 {
      SplitDots(s[1..]);
    }
  }

  /** The text form of "YY.MM": two digits, a dot, two digits, and a month from 01 to 12. */
  predicate IsYYMM(s: String) {
    && |s| == 5 && s[2] == '.'
    && IsDigit(s[0]) && IsDigit(s[1]) && IsDigit(s[3]) && IsDigit(s[4])
    && 1 <= DigitValue(s[3]) * 10 + DigitValue(s[4]) <= 12
  }

  /**
   * The check accepts exactly the "YY.MM" strings; a string without
   * exactly one dot gets the "expected YY.MM" error, and any other
   * rejected string the "invalid Ubuntu version" error.
   */
  lemma UbuntuVersionSpec(s: String)
    ensures ValidateUbuntuVersion(s).Ok? <==> IsYYMM(s)
    ensures ValidateUbuntuVersion(s) == Err(ExpectedYYMM) <==> Dots(s) != 1
  {
    SplitDots(s);
    if Dots(s) == 1 {
      TwoPartsSpec(s);
    } else if IsYYMM(s) {
      YYMMOneDot(s);
    }
  }

  /** With exactly two dot-separated pieces, the check accepts exactly the "YY.MM" strings. */
  lemma TwoPartsSpec(s: String)
    requires |Strs.Split(s, '.')| == 2
    ensures ValidateUbuntuVersion(s).Ok? <==> IsYYMM(s)
  {
    var parts := Strs.Split(s, '.');
    Strs.SplitJoin(s, '.');
    assert s == parts[0] + "." + parts[1];
    if |parts[0]| == 2 && |parts[1]| == 2 {
      assert parts[0] == s[..2] && parts[1] == s[3..];
      if AllDigits(parts[1]) {
        DecimalValueTwo(parts[1]);
      }
    }
    if IsYYMM(s) {
      var p0, p1 := s[..2], s[3..];
      assert s == Strs.Join([p0, p1], ".");
      Strs.JoinSplit([p0, p1], '.');
    }
  }

  lemma YYMMOneDot(s: String)
    requires IsYYMM(s)
    ensures Dots(s) == 1
  {
    var yy, rest := s[..2], s[2..];
    assert s == yy + rest;
    assert rest == "." + s[3..];
    DotsAppend(yy, rest);
    DotsAppend(".", s[3..]);
    NoDots(yy);
    NoDots(s[3..]);
  }

  lemma DecimalValueTwo(s: String)
    requires |s| == 2 && AllDigits(s)
    ensures DecimalValue(s) == DigitValue(s[0]) * 10 + DigitValue(s[1])
  {
    assert s[..1][..0] == [];
    assert DecimalValue(s[..1]) == DigitValue(s[0]);
  }

  lemma {:induction false} DotsAppend(a: String, b: String)
    ensures Dots(a + b) == Dots(a) + Dots(b)
  {
    if |a| > 0 {
      assert (a + b)[1..] == a[1..] + b;
      DotsAppend(a[1..], b);
    } else {
      assert a + b == b;
    }
  }

  lemma {:induction false} NoDots(s: String)
    requires AllDigits(s)
    ensures Dots(s) == 0
  {
    if |s| > 0 {
      NoDots(s[1..]);
    }
  }

  /** "22.04" is accepted as it is, as the program's own tests expect. */
  lemma UbuntuAcceptsExample()
    ensures ValidateUbuntuVersion("22.04") == Ok("22.04")
  {
    assert IsYYMM("22.04");
    UbuntuVersionSpec("22.04");
  }

  /** "22.15" has one dot but no month 15, so it gets the "invalid Ubuntu version" error. */
  lemma UbuntuRejectsExample()
    ensures ValidateUbuntuVersion("22.15") == Err(InvalidUbuntuVersion)
  {
    var s := "22.15";
    assert !IsYYMM(s) by {
      assert DigitValue(s[3]) * 10 + DigitValue(s[4]) == 15;
    }
    assert Dots(s) == 1 by {
      assert s == "22" + "." + "15";
      DotsAppend("22" + ".", "15");
      DotsAppend("22", ".");
    }
    UbuntuVersionSpec(s);
  }

  /** The display strings the program's own tests expect. */
  lemma DisplayExamples()
    ensures Display(Linux(Ubuntu("22.04"))) == "linux-ubuntu-22.04"
    ensures Display(Linux(Debian(12))) == "linux-debian-12"
    ensures Display(Linux(Arch)) == "linux-arch"
  {
    assert Decimal(12) == Decimal(1) + [DigitChar(2)];
  }
}
