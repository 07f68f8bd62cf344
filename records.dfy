/**
 * The passport `Record` and its two validity policies: the presence policy
 * `IsValidv1` and the strict policy `IsValidv2`, built from one predicate per
 * field.
 */
module Records {

  import opened Wrappers
  import opened Strconv

  /** A passport: eight string fields, each `""` when the input did not mention it. */
  datatype Record = Record(Byr: string, Iyr: string, Eyr: string, Hgt: string,
                           Hcl: string, Ecl: string, Pid: string, Cid: string)

  /** The record `new(Record)` allocates: every field empty. */
  const Blank := Record("", "", "", "", "", "", "", "")

  /** The eight fields, as the parser addresses them. */
  datatype Field = BirthYear | IssueYear | ExpirationYear | Height
                 | HairColour | EyeColour | PassportId | CountryId

  /** The Go name of each field of `Record`. */
  function Name(f: Field): string {
    match f
    case BirthYear => "Byr"
    case IssueYear => "Iyr"
    case ExpirationYear => "Eyr"
    case Height => "Hgt"
    case HairColour => "Hcl"
    case EyeColour => "Ecl"
    case PassportId => "Pid"
    case CountryId => "Cid"
  }

  function Get(r: Record, f: Field): string {
    match f
    case BirthYear => r.Byr
    case IssueYear => r.Iyr
    case ExpirationYear => r.Eyr
    case Height => r.Hgt
    case HairColour => r.Hcl
    case EyeColour => r.Ecl
    case PassportId => r.Pid
    case CountryId => r.Cid
  }

  /** The record with field `f` replaced by `v`: what `SetString` does to the field named `Name(f)`. */
  function Set(r: Record, f: Field, v: string): (r': Record)
    ensures Get(r', f) == v
    ensures forall g :: g != f ==> Get(r', g) == Get(r, g)
  {
    match f
    case BirthYear => r.(Byr := v)
    case IssueYear => r.(Iyr := v)
    case ExpirationYear => r.(Eyr := v)
    case Height => r.(Hgt := v)
    case HairColour => r.(Hcl := v)
    case EyeColour => r.(Ecl := v)
    case PassportId => r.(Pid := v)
    case CountryId => r.(Cid := v)
  }

  /** A record is determined by its eight fields. */
  lemma FieldsDetermineRecord(r: Record, s: Record)
    requires forall f :: Get(r, f) == Get(s, f)
    ensures r == s
  {
    assert Get(r, BirthYear) == Get(s, BirthYear) && Get(r, IssueYear) == Get(s, IssueYear);
    assert Get(r, ExpirationYear) == Get(s, ExpirationYear) && Get(r, Height) == Get(s, Height);
    assert Get(r, HairColour) == Get(s, HairColour) && Get(r, EyeColour) == Get(s, EyeColour);
    assert Get(r, PassportId) == Get(s, PassportId) && Get(r, CountryId) == Get(s, CountryId);
  }

  // ---------------------------------------------------------------------------
  // Presence policy

  /** Part 1: the seven required fields are all non-empty; the country id is not looked at. */
  function IsValidv1(r: Record): (b: bool)
    ensures b <==> forall f :: f != CountryId ==> Get(r, f) != ""
  {
    assert Get(r, BirthYear) == r.Byr && Get(r, IssueYear) == r.Iyr && Get(r, ExpirationYear) == r.Eyr;
    assert Get(r, Height) == r.Hgt && Get(r, HairColour) == r.Hcl && Get(r, EyeColour) == r.Ecl;
    assert Get(r, PassportId) == r.Pid;
    r.Byr != "" && r.Iyr != "" && r.Eyr != "" && r.Hgt != "" &&
    r.Hcl != "" && r.Ecl != "" && r.Pid != ""
  }

  // ---------------------------------------------------------------------------
  // Strict policy, field by field

  /** The field parses as a base-10 integer and lies in `lo..hi` inclusive; a parse error is `false`. */
  function YearInRange(s: string, lo: int, hi: int): (b: bool)
    ensures b ==> s != [] && IsDigit(s[|s| - 1])
  {
    match ParseInt(s)
    case None => false
    case Some(y) => lo <= y <= hi
  }

  function ByrIsValid(r: Record): (b: bool)
    ensures b ==> r.Byr != ""
  {
    YearInRange(r.Byr, 1920, 2002)
  }

  function IyrIsValid(r: Record): (b: bool)
    ensures b ==> r.Iyr != ""
  {
    YearInRange(r.Iyr, 2010, 2020)
  }

  function EyrIsValid(r: Record): (b: bool)
    ensures b ==> r.Eyr != ""
  {
    YearInRange(r.Eyr, 2020, 2030)
  }

  /** A number followed by the unit `in` (59..76) or `cm` (150..193). */
  function HgtIsValid(r: Record): (b: bool)
    ensures b ==> |r.Hgt| > 2 && (r.Hgt[|r.Hgt| - 2..] == "cm" || r.Hgt[|r.Hgt| - 2..] == "in")
  {
    var h := r.Hgt;
    if |h| <= 2 then false
    else
      match ParseInt(h[..|h| - 2])
      case None => false
      case Some(height) =>
        var units := h[|h| - 2..];
        if units == "in" then 59 <= height <= 76
        else if units == "cm" then 150 <= height <= 193
        else false
  }

  /** The regular expression `^#[a-f0-9]{6}$`. */
  function HclIsValid(r: Record): (b: bool)
    ensures b ==> r.Hcl != "" && forall i :: 0 <= i < |r.Hcl| ==> !('A' <= r.Hcl[i] <= 'Z')
  {
    |r.Hcl| == 7 && r.Hcl[0] == '#' && forall i :: 1 <= i < 7 ==> IsLowerHex(r.Hcl[i])
  }

  /** The accepted eye colours, in the order the validator tries them. */
  const EclOptions: seq<string> := ["amb", "blu", "brn", "gry", "grn", "hzl", "oth"]

  predicate IsEyeColour(s: string) {
    s in EclOptions
  }

  /** The search of `EclOptions` for the record's eye colour, stopping at the first match. */
  method EclIsValid(r: Record) returns (valid: bool)
    ensures valid <==> r.Ecl in {"amb", "blu", "brn", "gry", "grn", "hzl", "oth"}
    ensures valid <==> IsEyeColour(r.Ecl)
  {
    for i := 0 to |EclOptions|
      invariant forall j :: 0 <= j < i ==> EclOptions[j] != r.Ecl
    {
      if EclOptions[i] == r.Ecl {
        return true;
      }
    }
    assert r.Ecl !in EclOptions;
    return false;
  }

  /** The regular expression `^[0-9]{9}$`. */
  function PidIsValid(r: Record): (b: bool)
    ensures b ==> r.Pid != ""
  {
    |r.Pid| == 9 && AllDigits(r.Pid)
  }

  /** Part 2: every required field passes its own check; every check rejects an empty field, so part 2 implies part 1. */
  function IsValidv2(r: Record): (b: bool)
    ensures b ==> IsValidv1(r)
  {
    ByrIsValid(r) && IyrIsValid(r) && EyrIsValid(r) && HgtIsValid(r) &&
    HclIsValid(r) && IsEyeColour(r.Ecl) && PidIsValid(r)
  }

  // ---------------------------------------------------------------------------
  // What the policies mean

  /** A year field written as a 64-bit integer is valid exactly when the integer is in range. */
  lemma YearRoundTrip(n: int, lo: int, hi: int)
    requires MinInt64 <= n <= MaxInt64
    ensures YearInRange(FormatInt(n), lo, hi) <==> lo <= n <= hi
  {
    ParseFormatInt(n);
  }

  /** The inclusive bounds of the birth-year check, on the year and the year next to it. */
  lemma BirthYearBounds()
    ensures !YearInRange("1919", 1920, 2002) && YearInRange("1920", 1920, 2002)
    ensures YearInRange("2002", 1920, 2002) && !YearInRange("2003", 1920, 2002)
    ensures YearInRange("01920", 1920, 2002)
  {
    FourDigitYear("1919");
    FourDigitYear("1920");
    FourDigitYear("2002");
    FourDigitYear("2003");
    ParseIntLeadingZero("1920");
    assert "0" + "1920" == "01920";
  }

  /** The inclusive bounds of the issue-year check. */
  lemma IssueYearBounds()
    ensures !YearInRange("2009", 2010, 2020) && YearInRange("2010", 2010, 2020)
    ensures YearInRange("2020", 2010, 2020) && !YearInRange("2021", 2010, 2020)
  {
    FourDigitYear("2009");
    FourDigitYear("2010");
    FourDigitYear("2020");
    FourDigitYear("2021");
  }

  /** The inclusive bounds of the expiration-year check. */
  lemma ExpirationYearBounds()
    ensures !YearInRange("2019", 2020, 2030) && YearInRange("2020", 2020, 2030)
    ensures YearInRange("2030", 2020, 2030) && !YearInRange("2031", 2020, 2030)
  {
    FourDigitYear("2019");
    FourDigitYear("2020");
    FourDigitYear("2030");
    FourDigitYear("2031");
  }

  /** A four-digit string parses to its positional value. */
  lemma FourDigitYear(s: string)
    requires |s| == 4 && AllDigits(s)
    ensures ParseInt(s) == Some(1000 * CharValue(s[0]) + 100 * CharValue(s[1]) + 10 * CharValue(s[2]) + CharValue(s[3]))
  {
    assert AllDigitsIn(s, 10);
    var a, b, c := s[..1], s[..2], s[..3];
    assert a[..0] == [] && b[..1] == a && c[..2] == b && s[..3] == c;
    assert ValueIn(a, 10) == CharValue(s[0]);
    assert ValueIn(b, 10) == 10 * CharValue(s[0]) + CharValue(s[1]);
    assert ValueIn(c, 10) == 100 * CharValue(s[0]) + 10 * CharValue(s[1]) + CharValue(s[2]);
  }

  /** A height written as a 64-bit integer and a two-letter unit. */
  lemma HeightRoundTrip(r: Record, n: int, units: string)
    requires MinInt64 <= n <= MaxInt64 && |units| == 2
    requires r.Hgt == FormatInt(n) + units
    ensures HgtIsValid(r) <==> (units == "cm" && 150 <= n <= 193) || (units == "in" && 59 <= n <= 76)
  {
    var h := r.Hgt;
    assert h[..|h| - 2] == FormatInt(n);
    assert h[|h| - 2..] == units;
    ParseFormatInt(n);
  }

  /** The upper bound of the height check in centimetres. */
  lemma HeightCentimetreBound()
    ensures HgtIsValid(Blank.(Hgt := "193cm")) && !HgtIsValid(Blank.(Hgt := "194cm"))
  {
    HeightRoundTrip(Blank.(Hgt := "193cm"), 193, "cm");
    HeightRoundTrip(Blank.(Hgt := "194cm"), 194, "cm");
  }

  /** The upper bound of the height check in inches. */
  lemma HeightInchBound()
    ensures HgtIsValid(Blank.(Hgt := "76in")) && !HgtIsValid(Blank.(Hgt := "77in"))
  {
    HeightRoundTrip(Blank.(Hgt := "76in"), 76, "in");
    HeightRoundTrip(Blank.(Hgt := "77in"), 77, "in");
  }

  /** A height without one of the two units is rejected: `"170"` has the unit `"70"`. */
  lemma HeightNeedsUnit(r: Record)
    requires |r.Hgt| > 2 && r.Hgt[|r.Hgt| - 2..] != "cm" && r.Hgt[|r.Hgt| - 2..] != "in"
    ensures !HgtIsValid(r)
  {
  }

  lemma HeightWithoutUnit()
    ensures !HgtIsValid(Blank.(Hgt := "170"))
  {
    HeightNeedsUnit(Blank.(Hgt := "170"));
  }

  /** `#` followed by six lower-case hex digits of a 24-bit number. */
  function HexColour(n: nat): (s: string)
    requires n < 0x100_0000
  {
    "#" + PadDigits(n, 6, 16)
  }

  /** The hair colours accepted are exactly the renderings of the 24-bit numbers. */
  lemma HairColourIff(r: Record)
    ensures HclIsValid(r) <==> exists n :: 0 <= n < 0x100_0000 && r.Hcl == HexColour(n)
  {
    var s := r.Hcl;
    if HclIsValid(r) {
      var digits := s[1..];
      assert AllDigitsIn(digits, 16) by {
        forall i | 0 <= i < |digits| ensures IsDigitIn(digits[i], 16) {
          assert IsLowerHex(s[i + 1]);
        }
      }
      var n := ValueIn(digits, 16);
      ValueBelowPow(digits, 16);
      PadDigitsOfValue(digits, 16);
      assert s == HexColour(n);
    }
    if exists n :: 0 <= n < 0x100_0000 && s == HexColour(n) {
      var n :| 0 <= n < 0x100_0000 && s == HexColour(n);
      var digits := PadDigits(n, 6, 16);
      forall i | 1 <= i < 7 ensures IsLowerHex(s[i]) {
        assert s[i] == digits[i - 1];
      }
    }
  }

  /** Upper-case hex digits are rejected. */
  lemma HairColourLowerCase(r: Record, i: nat)
    requires 0 < i < |r.Hcl| && 'A' <= r.Hcl[i] <= 'F'
    ensures !HclIsValid(r)
  {
  }

  /** The passport ids accepted are exactly the nine-digit zero-padded numbers below 10^9. */
  lemma PassportIdIff(r: Record)
    ensures PidIsValid(r) <==> exists n :: 0 <= n < 1_000_000_000 && r.Pid == PadDigits(n, 9, 10)
  {
    var s := r.Pid;
    if PidIsValid(r) {
      assert AllDigitsIn(s, 10);
      var n := ValueIn(s, 10);
      ValueBelowPow(s, 10);
      PadDigitsOfValue(s, 10);
      assert s == PadDigits(n, 9, 10);
    }
    if exists n :: 0 <= n < 1_000_000_000 && s == PadDigits(n, 9, 10) {
      var n :| 0 <= n < 1_000_000_000 && s == PadDigits(n, 9, 10);
      assert AllDigits(s) by {
        forall i | 0 <= i < 9 ensures IsDigit(s[i]) {
          assert IsDigitIn(s[i], 10);
        }
      }
    }
  }

  /** Nine digits, leading zeros included, are accepted; eight or ten are not. */
  lemma PassportIdExamples()
    ensures PidIsValid(Blank.(Pid := "000000001"))
    ensures !PidIsValid(Blank.(Pid := "00000001")) && !PidIsValid(Blank.(Pid := "0000000001"))
  {
  }

  /** Neither policy reads the country id. */
  lemma CountryIdIgnored(r: Record, cid: string)
    ensures IsValidv1(r.(Cid := cid)) == IsValidv1(r)
    ensures IsValidv2(r.(Cid := cid)) == IsValidv2(r)
  {
  }

  /** The record holding the given numbers written out: years in decimal, a height in centimetres, a hex colour, a nine-digit id. */
  function Passport(byr: int, iyr: int, eyr: int, hgt: int, hcl: nat, ecl: string, pid: nat, cid: string): Record
    requires hcl < 0x100_0000
  {
    Record(FormatInt(byr), FormatInt(iyr), FormatInt(eyr), FormatInt(hgt) + "cm",
           HexColour(hcl), ecl, PadDigits(pid, 9, 10), cid)
  }

  /** Field values chosen in range make a record that both policies accept. */
  lemma InRangeRecordIsValid(byr: int, iyr: int, eyr: int, hgt: int, hcl: nat, ecl: string, pid: nat, cid: string)
    requires 1920 <= byr <= 2002 && 2010 <= iyr <= 2020 && 2020 <= eyr <= 2030
    requires 150 <= hgt <= 193 && hcl < 0x100_0000 && ecl in EclOptions && pid < 1_000_000_000
    ensures IsValidv2(Passport(byr, iyr, eyr, hgt, hcl, ecl, pid, cid))
    ensures IsValidv1(Passport(byr, iyr, eyr, hgt, hcl, ecl, pid, cid))
  {
    var r := Passport(byr, iyr, eyr, hgt, hcl, ecl, pid, cid);
    YearRoundTrip(byr, 1920, 2002);
    YearRoundTrip(iyr, 2010, 2020);
    YearRoundTrip(eyr, 2020, 2030);
    HeightRoundTrip(r, hgt, "cm");
    HairColourIff(r);
    PassportIdIff(r);
  }
}
