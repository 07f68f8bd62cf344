/**
 * `Part1` and `Part2`: the records of a batch file are read in order and the
 * ones a policy accepts are counted.  A block that makes `RecordFromString`
 * panic ends the program before any count is printed, which is `None` here.
 */
module Counting {

  import opened Wrappers
  import opened Records
  import opened Grouping

  /** How many of the records satisfy `valid`. */
  function CountWhere(rs: seq<Record>, valid: Record -> bool): (n: nat)
    ensures n <= |rs|
  {
    if rs == [] then 0
    else CountWhere(rs[..|rs| - 1], valid) + (if valid(rs[|rs| - 1]) then 1 else 0)
  }

  /** The number a part prints for a batch file of `lines` under a policy, or `None` when the program panics. */
  function Tally(lines: seq<string>, valid: Record -> bool): (t: Option<nat>)
    ensures ParseAll(Blocks(lines)).Some? ==> t.Some? && t.value <= |ParseAll(Blocks(lines)).value|
    ensures ParseAll(Blocks(lines)).None? ==> t.None?
  {
    match ParseAll(Blocks(lines))
    case None => None
    case Some(rs) => Some(CountWhere(rs, valid))
  }

  /** One more record adds one to the count exactly when the policy accepts it. */
  lemma CountStep(rs: seq<Record>, i: nat, valid: Record -> bool)
    requires i < |rs|
    ensures CountWhere(rs[..i + 1], valid) == CountWhere(rs[..i], valid) + (if valid(rs[i]) then 1 else 0)
  {
    assert rs[..i + 1][..i] == rs[..i];
  }

  /** Counts the records that have every required field, one by one as they arrive. */
  method Part1(lines: seq<string>) returns (count: Option<nat>)
    ensures count == Tally(lines, IsValidv1)
  {
    var records := RecordIterator(lines);
    if records.None? {
      return None;
    }
    var rs := records.value;
    var n := 0;
    for i := 0 to |rs|
      invariant n == CountWhere(rs[..i], IsValidv1)
    {
      CountStep(rs, i, IsValidv1);
      if IsValidv1(rs[i]) {
        n := n + 1;
      }
    }
    assert rs[..|rs|] == rs;
    count := Some(n);
  }

  /** Counts the records whose required fields are all present and acceptable. */
  method Part2(lines: seq<string>) returns (count: Option<nat>)
    ensures count == Tally(lines, IsValidv2)
  {
    var records := RecordIterator(lines);
    if records.None? {
      return None;
    }
    var rs := records.value;
    var n := 0;
    for i := 0 to |rs|
      invariant n == CountWhere(rs[..i], IsValidv2)
    {
      CountStep(rs, i, IsValidv2);
      if IsValidv2(rs[i]) {
        n := n + 1;
      }
    }
    assert rs[..|rs|] == rs;
    count := Some(n);
  }

  // ---------------------------------------------------------------------------
  // What the counts promise

  /** Counting a batch in two parts gives the sum of the two counts. */
  lemma {:induction false} CountAppend(a: seq<Record>, b: seq<Record>, valid: Record -> bool)
    ensures CountWhere(a + b, valid) == CountWhere(a, valid) + CountWhere(b, valid)
    decreases |b|
  {
    if b == [] {
      assert a + b == a;
    } else {
      var b' := b[..|b| - 1];
      assert (a + b)[..|a + b| - 1] == a + b';
      CountAppend(a, b', valid);
    }
  }

  /** A stricter policy never counts more records. */
  lemma {:induction false} CountMonotone(rs: seq<Record>, strict: Record -> bool, loose: Record -> bool)
    requires forall r :: strict(r) ==> loose(r)
    ensures CountWhere(rs, strict) <= CountWhere(rs, loose)
  {
    if rs != [] {
      CountMonotone(rs[..|rs| - 1], strict, loose);
    }
  }

  /** The count under the strict policy is at most the count under the presence policy. */
  lemma StrictCountAtMostPresence(rs: seq<Record>)
    ensures CountWhere(rs, IsValidv2) <= CountWhere(rs, IsValidv1)
  {
    forall r ensures IsValidv2(r) ==> IsValidv1(r) {
    }
    CountMonotone(rs, IsValidv2, IsValidv1);
  }

  /** Both parts panic on the same inputs, and part two never answers more than part one. */
  lemma Part2AtMostPart1(lines: seq<string>)
    ensures Tally(lines, IsValidv2).None? <==> Tally(lines, IsValidv1).None?
    ensures Tally(lines, IsValidv2).Some? ==> Tally(lines, IsValidv2).value <= Tally(lines, IsValidv1).value
  {
    if ParseAll(Blocks(lines)).Some? {
      StrictCountAtMostPresence(ParseAll(Blocks(lines)).value);
    }
  }

  /** Every count is at most the number of blocks, which is the number of blank lines plus one for a non-blank last line. */
  lemma TallyAtMostBlocks(lines: seq<string>, valid: Record -> bool)
    ensures Tally(lines, valid).Some? ==>
      Tally(lines, valid).value <= CountBlank(lines) + (if lines != [] && lines[|lines| - 1] != "" then 1 else 0)
  {
    if ParseAll(Blocks(lines)).Some? {
      ParseAllSpec(Blocks(lines));
      BlockCount(lines);
    }
  }
}
