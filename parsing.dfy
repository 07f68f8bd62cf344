/**
 * `RecordFromString`, which fills a `Record` from `key:value` tokens.
 */
module Parsing {

  import opened Wrappers
  import opened Text
  import opened Records
  import opened Strconv

  // ---------------------------------------------------------------------------
  // From keys to fields

  /** `FieldByName` on a `Record`: the field with exactly this Go name, if there is one. */
  function FieldByName(name: string): (r: Option<Field>)
    ensures forall f :: r == Some(f) <==> Name(f) == name
  {
    if name == "Byr" then Some(BirthYear)
    else if name == "Iyr" then Some(IssueYear)
    else if name == "Eyr" then Some(ExpirationYear)
    else if name == "Hgt" then Some(Height)
    else if name == "Hcl" then Some(HairColour)
    else if name == "Ecl" then Some(EyeColour)
    else if name == "Pid" then Some(PassportId)
    else if name == "Cid" then Some(CountryId)
    else None
  }

  /** The key the input format uses for each field. */
  function Key(f: Field): string {
    match f
    case BirthYear => "byr"
    case IssueYear => "iyr"
    case ExpirationYear => "eyr"
    case Height => "hgt"
    case HairColour => "hcl"
    case EyeColour => "ecl"
    case PassportId => "pid"
    case CountryId => "cid"
  }

  /**
   * The keys that reach a field through `Title` (ASCII title-casing) and
   * `FieldByName` are exactly the lower-case key and the Go field name:
   * `"byr"` and `"Byr"` set `Byr`, and `"BYR"`, `"bYr"` or `""` set nothing.
   */
  lemma KeyTable(key: string, f: Field)
    ensures FieldByName(Title(key)) == Some(f) <==> key == Key(f) || key == Name(f)
  {
    var t := Title(key);
    if key == Key(f) || key == Name(f) {
      assert t == Name(f);
    }
    if t == Name(f) {
      assert |key| == 3;
      assert !IsSeparator(key[0]) && !IsSeparator(key[1]);
      assert key[1..] == Name(f)[1..];
      assert key == Key(f) || key == Name(f);
    }
  }

  // ---------------------------------------------------------------------------
  // Tokens

  /** The key of a `key:value` token: the text before its first colon (`pieces[0]`). */
  function TokenKey(t: string): string
    requires ':' in t
  {
    Split(t, ':')[0]
  }

  /** The value of a `key:value` token: `pieces[1]`, the text between its first and second colon. */
  function TokenValue(t: string): string
    requires ':' in t
  {
    Split(t, ':')[1]
  }

  /** The key and value are the colon-free pieces that open the token, with one colon between them. */
  lemma TokenPieces(t: string)
    requires ':' in t
    ensures ':' !in TokenKey(t) && ':' !in TokenValue(t)
    ensures var n := |TokenKey(t)| + 1 + |TokenValue(t)|;
            n <= |t| && t[..n] == TokenKey(t) + ":" + TokenValue(t) && (n < |t| ==> t[n] == ':')
  {
    var i := IndexOf(t, ':');
    var rest := t[i + 1..];
    assert TokenKey(t) == t[..i];
    assert TokenValue(t) == Split(rest, ':')[0];
    var n := |TokenKey(t)| + 1 + |TokenValue(t)|;
    if ':' in rest {
      var j := IndexOf(rest, ':');
      assert TokenValue(t) == rest[..j];
      assert t[..n] == t[..i] + ":" + rest[..j];
    } else {
      assert TokenValue(t) == rest;
      assert t[..n] == t;
    }
  }

  /** The field a token with a colon writes, or `None` when `SetString` would panic. */
  function Target(t: string): Option<Field>
    requires ':' in t
  {
    FieldByName(Title(TokenKey(t)))
  }

  /** A token that sets field `f`. */
  predicate Assigns(t: string, f: Field) {
    ':' in t && Target(t) == Some(f)
  }

  /** A token whose key names no field: `FieldByName` gives the zero `Value` and `SetString` panics. */
  predicate Rejects(t: string) {
    ':' in t && Target(t).None?
  }

  /** The value of the last token that sets `f`, or `""` when none does. */
  function LastValue(ts: seq<string>, f: Field): string {
    if ts == [] then ""
    else if Assigns(ts[|ts| - 1], f) then TokenValue(ts[|ts| - 1])
    else LastValue(ts[..|ts| - 1], f)
  }

  /**
   * What the tokens of one block produce, stated field by field: a panic if
   * any token has an unknown key; otherwise each field holds the value of the
   * last token for it.
   */
  function Outcome(ts: seq<string>): Option<Record> {
    if exists i :: 0 <= i < |ts| && Rejects(ts[i]) then None
    else Some(Record(LastValue(ts, BirthYear), LastValue(ts, IssueYear), LastValue(ts, ExpirationYear),
                     LastValue(ts, Height), LastValue(ts, HairColour), LastValue(ts, EyeColour),
                     LastValue(ts, PassportId), LastValue(ts, CountryId)))
  }

  /** One token applied to the record built so far: ignored without a colon, a panic on an unknown key. */
  function Apply(r: Record, t: string): Option<Record> {
    if ':' !in t then Some(r)
    else match Target(t)
      case None => None
      case Some(f) => Some(Set(r, f, TokenValue(t)))
  }

  /**
   * A token panics exactly when its key names no field; otherwise it writes
   * its value into the field it names and leaves every other field alone.
   */
  lemma ApplySpec(r: Record, t: string, f: Field)
    ensures Apply(r, t).None? <==> Rejects(t)
    ensures Apply(r, t).Some? ==> Get(Apply(r, t).value, f) == if Assigns(t, f) then TokenValue(t) else Get(r, f)
  {
  }

  /** The tokens applied one after the other to a blank record, stopping at the first panic. */
  function ParseTokens(ts: seq<string>): Option<Record> {
    if ts == [] then Some(Blank)
    else match ParseTokens(ts[..|ts| - 1])
      case None => None
      case Some(r) => Apply(r, ts[|ts| - 1])
  }

  /** The outcome of `RecordFromString(input)`. */
  function ParseRecord(input: string): Option<Record> {
    ParseTokens(Words(input))
  }

  /**
   * Scans the words of `input` and writes each `key:value` token into a blank
   * record; `None` stands for the panic an unknown key causes.
   */
  method RecordFromString(input: string) returns (r: Option<Record>)
    ensures r == ParseRecord(input)
  {
    var tokens := Words(input);
    var output := Blank;
    for i := 0 to |tokens|
      invariant ParseTokens(tokens[..i]) == Some(output)
    {
      assert tokens[..i + 1][..i] == tokens[..i];
      var token := tokens[i];
      if ':' in token {
        var pieces := Split(token, ':');
        var field := Title(pieces[0]);
        var value := pieces[1];
        match FieldByName(field) {
          case None =>
            StopsAtPanic(tokens, i + 1);
            ParseTokensOutcome(tokens);
            return None;
          case Some(f) =>
            output := Set(output, f, value);
        }
      }
    }
    assert tokens[..|tokens|] == tokens;
    ParseTokensOutcome(tokens);
    r := Some(output);
  }

  /** Once a token panics, no later token is read. */
  lemma {:induction false} StopsAtPanic(ts: seq<string>, n: nat)
    requires n <= |ts| && ParseTokens(ts[..n]) == None
    ensures ParseTokens(ts) == None
    decreases |ts| - n
  {
    if n == |ts| {
      assert ts[..n] == ts;
    } else {
      assert ts[..n + 1][..n] == ts[..n];
      StopsAtPanic(ts, n + 1);
    }
  }

  /** Applying the tokens one by one gives the field-by-field outcome. */
  lemma {:induction false} ParseTokensOutcome(ts: seq<string>)
    ensures ParseTokens(ts) == Outcome(ts)
  {
    if ts != [] {
      var init, t := ts[..|ts| - 1], ts[|ts| - 1];
      ParseTokensOutcome(init);
      if exists i :: 0 <= i < |init| && Rejects(init[i]) {
        var i :| 0 <= i < |init| && Rejects(init[i]);
        assert Rejects(ts[i]);
      } else if Rejects(t) {
        assert Rejects(ts[|ts| - 1]);
      } else {
        OutcomeStep(ts);
      }
    }
  }

  /** A token that does not panic moves the field-by-field outcome one token on. */
  lemma OutcomeStep(ts: seq<string>)
    requires ts != [] && Outcome(ts[..|ts| - 1]).Some? && !Rejects(ts[|ts| - 1])
    ensures Apply(Outcome(ts[..|ts| - 1]).value, ts[|ts| - 1]) == Outcome(ts)
  {
    var init, t := ts[..|ts| - 1], ts[|ts| - 1];
    assert Outcome(ts).Some? by {
      forall i | 0 <= i < |ts| ensures !Rejects(ts[i]) {
        if i < |init| {
          assert ts[i] == init[i];
        }
      }
    }
    var r := Outcome(init).value;
    forall g ensures Get(Apply(r, t).value, g) == LastValue(ts, g) {
      LastValueStep(ts, |ts| - 1, g);
      assert ts[..|ts|] == ts;
    }
    FieldsDetermineRecord(Apply(r, t).value, Outcome(ts).value);
  }

  lemma LastValueStep(ts: seq<string>, i: nat, f: Field)
    requires i < |ts|
    ensures LastValue(ts[..i + 1], f) == if Assigns(ts[i], f) then TokenValue(ts[i]) else LastValue(ts[..i], f)
  {
    assert ts[..i + 1][..i] == ts[..i];
  }

  // ---------------------------------------------------------------------------
  // What RecordFromString promises

  /** Tokens without a colon are ignored, wherever they stand. */
  lemma {:induction false} ColonlessTokenIgnored(a: seq<string>, t: string, b: seq<string>)
    requires ':' !in t
    ensures ParseTokens(a + [t] + b) == ParseTokens(a + b)
    decreases |b|
  {
    var s, s' := a + [t] + b, a + b;
    if b == [] {
      assert s[..|s| - 1] == a == s';
    } else {
      var b' := b[..|b| - 1];
      assert s[..|s| - 1] == a + [t] + b';
      assert s'[..|s'| - 1] == a + b';
      assert s[|s| - 1] == s'[|s'| - 1];
      ColonlessTokenIgnored(a, t, b');
    }
  }

  /** A later token for a field overwrites the value of an earlier one and leaves the other fields alone. */
  lemma LaterTokenOverwrites(ts: seq<string>, t: string, f: Field)
    requires Assigns(t, f) && ParseTokens(ts).Some?
    ensures ParseTokens(ts + [t]) == Some(Set(ParseTokens(ts).value, f, TokenValue(t)))
  {
    assert (ts + [t])[..|ts|] == ts;
  }

  /** A field that no token sets stays `""`. */
  lemma {:induction false} UnmentionedFieldEmpty(ts: seq<string>, f: Field)
    requires forall i :: 0 <= i < |ts| ==> !Assigns(ts[i], f)
    ensures LastValue(ts, f) == ""
    ensures ParseTokens(ts).Some? ==> Get(ParseTokens(ts).value, f) == ""
  {
    if ts != [] {
      var p := ts[..|ts| - 1];
      assert forall i :: 0 <= i < |p| ==> p[i] == ts[i];
      UnmentionedFieldEmpty(p, f);
    }
    ParseTokensOutcome(ts);
  }

  /** A token whose key is neither the lower-case key nor the Go name of a field makes the parse fail. */
  lemma UnknownKeyFails(ts: seq<string>, i: nat)
    requires i < |ts| && ':' in ts[i]
    requires forall f :: TokenKey(ts[i]) != Key(f) && TokenKey(ts[i]) != Name(f)
    ensures ParseTokens(ts) == None
  {
    var t := ts[i];
    ParseTokensOutcome(ts);
    if Target(t).Some? {
      KeyTable(TokenKey(t), Target(t).value);
      assert false;
    }
  }

  // ---------------------------------------------------------------------------
  // Writing a record back as text

  /** The eight fields in the order `Format` writes them. */
  const FieldOrder: seq<Field> := [BirthYear, IssueYear, ExpirationYear, Height, HairColour, EyeColour, PassportId, CountryId]

  function Position(f: Field): (k: nat)
    ensures k < |FieldOrder| && FieldOrder[k] == f
  {
    match f
    case BirthYear => 0
    case IssueYear => 1
    case ExpirationYear => 2
    case Height => 3
    case HairColour => 4
    case EyeColour => 5
    case PassportId => 6
    case CountryId => 7
  }

  /** The token `key:value` for field `f`. */
  function FieldToken(f: Field, v: string): string {
    Key(f) + ":" + v
  }

  /** A value that survives the token format: no colon and no white space. */
  predicate Writable(v: string) {
    ':' !in v && forall i :: 0 <= i < |v| ==> !IsSpace(v[i])
  }

  /** The tokens of a record, one per field, in `FieldOrder`. */
  function Tokens(r: Record): (ts: seq<string>)
    ensures |ts| == |FieldOrder|
  {
    seq(|FieldOrder|, k requires 0 <= k < |FieldOrder| => FieldToken(FieldOrder[k], Get(r, FieldOrder[k])))
  }

  /** The record as one line of `key:value` tokens separated by spaces. */
  function Format(r: Record): string {
    Join(Tokens(r), ' ')
  }

  /** A field token reads back as its own key and value, and sets only its own field. */
  lemma FieldTokenParts(f: Field, v: string)
    requires ':' !in v
    ensures ':' in FieldToken(f, v) && TokenKey(FieldToken(f, v)) == Key(f) && TokenValue(FieldToken(f, v)) == v
    ensures Target(FieldToken(f, v)) == Some(f)
  {
    var t := FieldToken(f, v);
    assert Join([Key(f), v], ':') == t;
    SplitJoin([Key(f), v], ':');
    assert t[3] == ':';
    KeyTable(Key(f), f);
  }

  lemma {:induction false} LastValueOfOnlyToken(ts: seq<string>, k: nat, f: Field)
    requires k < |ts| && Assigns(ts[k], f)
    requires forall j :: 0 <= j < |ts| && j != k ==> !Assigns(ts[j], f)
    ensures LastValue(ts, f) == TokenValue(ts[k])
  {
    if k < |ts| - 1 {
      var p := ts[..|ts| - 1];
      assert forall j :: 0 <= j < |p| ==> p[j] == ts[j];
      LastValueOfOnlyToken(p, k, f);
    }
  }

  /** The tokens of a record, applied to a blank record, give the record back, when no field holds a colon or white space. */
  lemma TokensRoundTrip(r: Record)
    requires forall f :: Writable(Get(r, f))
    ensures ParseTokens(Tokens(r)) == Some(r)
  {
    var ts := Tokens(r);
    forall f ensures LastValue(ts, f) == Get(r, f) {
      FormattedLastValue(r, f);
    }
    assert !exists i :: 0 <= i < |ts| && Rejects(ts[i]) by {
      forall i | 0 <= i < |ts| ensures !Rejects(ts[i]) {
        FormattedToken(r, i);
      }
    }
    ParseTokensOutcome(ts);
    FieldsDetermineRecord(Outcome(ts).value, r);
  }

  /** Parsing the formatted record gives the record back, when no field holds a colon or white space. */
  lemma FormatRoundTrip(r: Record)
    requires forall f :: Writable(Get(r, f))
    ensures ParseRecord(Format(r)) == Some(r)
  {
    var ts := Tokens(r);
    forall k | 0 <= k < |ts| ensures IsWord(ts[k]) {
      FormattedToken(r, k);
    }
    WordsOfJoin(ts);
    TokensRoundTrip(r);
  }

  lemma FormattedLastValue(r: Record, f: Field)
    requires forall g :: Writable(Get(r, g))
    ensures LastValue(Tokens(r), f) == Get(r, f)
  {
    var ts := Tokens(r);
    var k := Position(f);
    FieldTokenParts(f, Get(r, f));
    forall j | 0 <= j < |ts| && j != k ensures !Assigns(ts[j], f) {
      FormattedToken(r, j);
    }
    LastValueOfOnlyToken(ts, k, f);
  }

  lemma FormattedToken(r: Record, k: nat)
    requires k < |FieldOrder| && Writable(Get(r, FieldOrder[k]))
    ensures IsWord(Tokens(r)[k]) && ':' in Tokens(r)[k] && Target(Tokens(r)[k]) == Some(FieldOrder[k])
  {
    FieldTokenParts(FieldOrder[k], Get(r, FieldOrder[k]));
    FieldTokenIsWord(FieldOrder[k], Get(r, FieldOrder[k]));
  }

  lemma FieldTokenIsWord(f: Field, v: string)
    requires Writable(v)
    ensures IsWord(FieldToken(f, v))
  {
    var t := FieldToken(f, v);
    forall i | 0 <= i < |t| ensures !IsSpace(t[i]) {
      if i > 3 {
        assert t[i] == v[i - 4];
      }
    }
  }

  /** A string of digits in a base up to 16 has neither a colon nor white space. */
  lemma DigitsWritable(s: string, base: nat)
    requires base <= 16 && AllDigitsIn(s, base)
    ensures Writable(s)
  {
    forall i | 0 <= i < |s| ensures s[i] != ':' && !IsSpace(s[i]) {
      assert IsLowerHex(s[i]);
    }
  }

  /** The in-range values of a passport survive the token format. */
  lemma InRangeFieldsWritable(byr: int, iyr: int, eyr: int, hgt: int, hcl: nat, ecl: string, pid: nat, cid: string)
    requires 0 <= byr && 0 <= iyr && 0 <= eyr && 0 <= hgt
    requires hcl < 0x100_0000 && ecl in EclOptions && Writable(cid)
    ensures forall f :: Writable(Get(Passport(byr, iyr, eyr, hgt, hcl, ecl, pid, cid), f))
  {
    var r := Passport(byr, iyr, eyr, hgt, hcl, ecl, pid, cid);
    DigitsWritable(r.Byr, 10);
    DigitsWritable(r.Iyr, 10);
    DigitsWritable(r.Eyr, 10);
    DigitsWritable(FormatInt(hgt), 10);
    DigitsWritable(PadDigits(hcl, 6, 16), 16);
    DigitsWritable(r.Pid, 10);
    assert Writable(r.Hgt) by {
      var h := r.Hgt;
      forall i | 0 <= i < |h| ensures h[i] != ':' && !IsSpace(h[i]) {
        if i < |FormatInt(hgt)| {
          assert h[i] == FormatInt(hgt)[i];
        }
      }
    }
    assert Writable(r.Hcl) by {
      var h := r.Hcl;
      forall i | 0 <= i < |h| ensures h[i] != ':' && !IsSpace(h[i]) {
        if i > 0 {
          assert h[i] == PadDigits(hcl, 6, 16)[i - 1];
        }
      }
    }
  }

  /** A block of all seven required fields with in-range values reads back as a record both policies accept. */
  lemma InRangeBlockIsValid(byr: int, iyr: int, eyr: int, hgt: int, hcl: nat, ecl: string, pid: nat, cid: string)
    requires 1920 <= byr <= 2002 && 2010 <= iyr <= 2020 && 2020 <= eyr <= 2030
    requires 150 <= hgt <= 193 && hcl < 0x100_0000 && ecl in EclOptions && pid < 1_000_000_000
    requires Writable(cid)
    ensures var r := Passport(byr, iyr, eyr, hgt, hcl, ecl, pid, cid);
            ParseRecord(Format(r)) == Some(r) && IsValidv1(r) && IsValidv2(r)
  {
    InRangeRecordIsValid(byr, iyr, eyr, hgt, hcl, ecl, pid, cid);
    InRangeFieldsWritable(byr, iyr, eyr, hgt, hcl, ecl, pid, cid);
    FormatRoundTrip(Passport(byr, iyr, eyr, hgt, hcl, ecl, pid, cid));
  }
}
