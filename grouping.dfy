/**
 * The sequential part of `RecordIterator`: lines are gathered into blocks, a
 * block ends at a blank line or at the last line, and every block goes
 * through `RecordFromString`.
 */
module Grouping {

  import opened Wrappers
  import opened Records
  import opened Parsing
  import Text

  /** The text the builder holds after the given lines: each line preceded by one space. */
  function Spaced(lines: seq<string>): string {
    if lines == [] then "" else Spaced(lines[..|lines| - 1]) + " " + lines[|lines| - 1]
  }

  function Flatten(segs: seq<seq<string>>): seq<string> {
    if segs == [] then [] else segs[0] + Flatten(segs[1..])
  }

  /**
   * `segs` cuts `lines` into consecutive non-empty blocks, in order; no block
   * holds a blank line except as its last line, and every block but the final
   * one ends with a blank line.
   */
  predicate IsGrouping(lines: seq<string>, segs: seq<seq<string>>) {
    && Flatten(segs) == lines
    && (forall k :: 0 <= k < |segs| ==> segs[k] != [])
    && (forall k, j :: 0 <= k < |segs| && 0 <= j < |segs[k]| - 1 ==> segs[k][j] != "")
    && (forall k :: 0 <= k < |segs| - 1 ==> segs[k][|segs[k]| - 1] == "")
  }

  /** The length of the first block: up to and including the first blank line, or all the lines. */
  function BlockLength(lines: seq<string>): (n: nat)
    requires lines != []
    ensures 1 <= n <= |lines|
    ensures forall j :: 0 <= j < n - 1 ==> lines[j] != ""
    ensures n == |lines| || lines[n - 1] == ""
  {
    if lines[0] == "" || |lines| == 1 then 1 else 1 + BlockLength(lines[1..])
  }

  /** The blocks of lines `RecordIterator` hands to `RecordFromString`, in order. */
  function Segments(lines: seq<string>): seq<seq<string>>
    decreases |lines|
  {
    if lines == [] then []
    else
      var n := BlockLength(lines);
      [lines[..n]] + Segments(lines[n..])
  }

  function BlocksOf(segs: seq<seq<string>>): (bs: seq<string>)
    ensures |bs| == |segs|
  {
    seq(|segs|, k requires 0 <= k < |segs| => Spaced(segs[k]))
  }

  /** The strings `RecordIterator` builds, one per block. */
  function Blocks(lines: seq<string>): seq<string> {
    BlocksOf(Segments(lines))
  }

  function CountBlank(lines: seq<string>): nat {
    if lines == [] then 0 else (if lines[0] == "" then 1 else 0) + CountBlank(lines[1..])
  }

  // ---------------------------------------------------------------------------
  // Segments is the one grouping of the lines

  /** Every line lands in exactly one block, in order, and a block ends exactly at a blank line or at the last line. */
  lemma {:induction false} SegmentsGroupLines(lines: seq<string>)
    ensures IsGrouping(lines, Segments(lines))
    decreases |lines|
  {
    if lines != [] {
      var n := BlockLength(lines);
      SegmentsGroupLines(lines[n..]);
      SingleBlock(lines[..n]);
      GroupingAppend(lines[..n], [lines[..n]], lines[n..], Segments(lines[n..]));
      assert lines == lines[..n] + lines[n..];
    }
  }

  /** No other cut of the lines satisfies the grouping rules. */
  lemma {:induction false} GroupingUnique(lines: seq<string>, segs: seq<seq<string>>)
    requires IsGrouping(lines, segs)
    ensures segs == Segments(lines)
    decreases |segs|
  {
    if segs != [] {
      var s := segs[0];
      assert lines == s + Flatten(segs[1..]);
      assert lines[..|s|] == s;
      var n := BlockLength(lines);
      if |segs| == 1 {
        assert Flatten(segs[1..]) == [];
      }
      assert n == |s|;
      assert lines[n..] == Flatten(segs[1..]);
      assert IsGrouping(lines[n..], segs[1..]) by {
        forall k, j | 0 <= k < |segs[1..]| && 0 <= j < |segs[1..][k]| - 1 ensures segs[1..][k][j] != "" {
          assert segs[1..][k] == segs[k + 1];
        }
      }
      GroupingUnique(lines[n..], segs[1..]);
    }
  }

  lemma {:induction false} FlattenAppend(s1: seq<seq<string>>, s2: seq<seq<string>>)
    ensures Flatten(s1 + s2) == Flatten(s1) + Flatten(s2)
  {
    if s1 == [] {
      assert s1 + s2 == s2;
    } else {
      assert (s1 + s2)[0] == s1[0];
      assert (s1 + s2)[1..] == s1[1..] + s2;
      FlattenAppend(s1[1..], s2);
    }
  }

  /** Two groupings side by side group the joined lines, when the first ends at a blank line. */
  lemma GroupingAppend(a: seq<string>, s1: seq<seq<string>>, b: seq<string>, s2: seq<seq<string>>)
    requires IsGrouping(a, s1) && IsGrouping(b, s2)
    requires s1 == [] || s2 == [] || s1[|s1| - 1][|s1[|s1| - 1]| - 1] == ""
    ensures IsGrouping(a + b, s1 + s2)
  {
    FlattenAppend(s1, s2);
    var s := s1 + s2;
    forall k, j | 0 <= k < |s| && 0 <= j < |s[k]| - 1 ensures s[k][j] != "" {
      if k >= |s1| {
        assert s[k] == s2[k - |s1|];
      }
    }
  }

  lemma {:induction false} CountBlankAppend(a: seq<string>, b: seq<string>)
    ensures CountBlank(a + b) == CountBlank(a) + CountBlank(b)
  {
    if a == [] {
      assert a + b == b;
    } else {
      assert (a + b)[0] == a[0];
      assert (a + b)[1..] == a[1..] + b;
      CountBlankAppend(a[1..], b);
    }
  }

  /** One record per blank line, plus one when the last line is not blank; no lines, no records. */
  lemma {:induction false} BlockCount(lines: seq<string>)
    ensures |Blocks(lines)| == CountBlank(lines) + (if lines != [] && lines[|lines| - 1] != "" then 1 else 0)
    decreases |lines|
  {
    if lines != [] {
      var n := BlockLength(lines);
      var rest := lines[n..];
      BlockCount(rest);
      assert lines == lines[..n] + rest;
      CountBlankAppend(lines[..n], rest);
      assert CountBlank(lines[..n]) == if lines[n - 1] == "" then 1 else 0 by {
        BlankOnlyAtEnd(lines[..n]);
      }
      if rest != [] {
        assert rest[|rest| - 1] == lines[|lines| - 1];
      }
    }
  }

  lemma {:induction false} BlankOnlyAtEnd(seg: seq<string>)
    requires seg != [] && forall j :: 0 <= j < |seg| - 1 ==> seg[j] != ""
    ensures CountBlank(seg) == if seg[|seg| - 1] == "" then 1 else 0
  {
    if |seg| > 1 {
      BlankOnlyAtEnd(seg[1..]);
    }
  }

  lemma {:induction false} SpacedAppend(a: seq<string>, b: seq<string>)
    ensures Spaced(a + b) == Spaced(a) + Spaced(b)
    decreases |b|
  {
    if b == [] {
      assert a + b == a;
    } else {
      var b' := b[..|b| - 1];
      assert (a + b)[|a + b| - 1] == b[|b| - 1];
      assert (a + b)[..|a + b| - 1] == a + b';
      SpacedAppend(a, b');
    }
  }

  function Concat(bs: seq<string>): string {
    if bs == [] then "" else bs[0] + Concat(bs[1..])
  }

  /** Every line is appended once, after a space, and the blocks together hold exactly that text. */
  lemma {:induction false} BlocksCoverLines(lines: seq<string>)
    ensures Concat(Blocks(lines)) == Spaced(lines)
    decreases |lines|
  {
    if lines != [] {
      var n := BlockLength(lines);
      var bs := Blocks(lines);
      BlocksCoverLines(lines[n..]);
      assert bs[0] == Spaced(lines[..n]);
      assert bs[1..] == Blocks(lines[n..]);
      assert Concat(bs) == Spaced(lines[..n]) + Spaced(lines[n..]);
      assert lines == lines[..n] + lines[n..];
      SpacedAppend(lines[..n], lines[n..]);
    }
  }

  // ---------------------------------------------------------------------------
  // The record stream

  /** Lines that end at a blank line group independently of the lines after them. */
  lemma SegmentsAppend(a: seq<string>, b: seq<string>)
    requires a == [] || a[|a| - 1] == ""
    ensures Segments(a + b) == Segments(a) + Segments(b)
  {
    SegmentsGroupLines(a);
    SegmentsGroupLines(b);
    EndsAtBlank(a, Segments(a));
    GroupingAppend(a, Segments(a), b, Segments(b));
    GroupingUnique(a + b, Segments(a) + Segments(b));
  }

  /**
   * The records for a sequence of blocks, in order, or `None` when some block
   * makes `RecordFromString` panic (which ends the program).
   */
  function ParseAll(blocks: seq<string>): (r: Option<seq<Record>>)
  {
    if blocks == [] then Some([])
    else
      var init := blocks[..|blocks| - 1];
      match ParseAll(init)
      case None => None
      case Some(rs) =>
        match ParseRecord(blocks[|blocks| - 1])
        case None => None
        case Some(r) => Some(rs + [r])
  }

  lemma {:induction false} ParseAllSpec(blocks: seq<string>)
    ensures var r := ParseAll(blocks);
      && (r.Some? ==> |r.value| == |blocks| && forall k :: 0 <= k < |blocks| ==> ParseRecord(blocks[k]) == Some(r.value[k]))
      && (r.None? ==> exists k :: 0 <= k < |blocks| && ParseRecord(blocks[k]).None?)
  {
    if blocks != [] {
      ParseAllSpec(blocks[..|blocks| - 1]);
    }
  }

  lemma ParseAllAppend(bs: seq<string>, b: string, rs: seq<Record>, r: Record)
    requires ParseAll(bs) == Some(rs) && ParseRecord(b) == Some(r)
    ensures ParseAll(bs + [b]) == Some(rs + [r])
  {
    assert (bs + [b])[..|bs|] == bs;
  }

  /** The last block of a grouping ends with the last line. */
  lemma {:induction false} EndsAtBlank(lines: seq<string>, segs: seq<seq<string>>)
    requires IsGrouping(lines, segs) && (lines == [] || lines[|lines| - 1] == "")
    decreases |segs|
    ensures segs == [] || segs[|segs| - 1][|segs[|segs| - 1]| - 1] == ""
  {
    if |segs| == 1 {
      assert lines == segs[0] + Flatten([]);
    } else if |segs| > 1 {
      var rest := Flatten(segs[1..]);
      assert lines == segs[0] + rest;
      assert IsGrouping(rest, segs[1..]) by {
        forall k, j | 0 <= k < |segs| - 1 && 0 <= j < |segs[k + 1]| - 1 ensures segs[1..][k][j] != "" {
          assert segs[1..][k] == segs[k + 1];
        }
      }
      assert rest != [] by {
        assert segs[1] != [];
        assert rest == segs[1] + Flatten(segs[2..]);
      }
      assert lines[|lines| - 1] == rest[|rest| - 1];
      EndsAtBlank(rest, segs[1..]);
    }
  }

  /** Closing the block `lines[start..idx + 1]` adds one block to those of the lines before it. */
  lemma CloseBlock(lines: seq<string>, start: nat, idx: nat, segs: seq<seq<string>>)
    requires start <= idx < |lines| && Segments(lines[..start]) == segs
    requires start == 0 || lines[start - 1] == ""
    requires forall j :: start <= j < idx ==> lines[j] != ""
    requires lines[idx] == "" || idx == |lines| - 1
    ensures Segments(lines[..idx + 1]) == segs + [lines[start..idx + 1]]
  {
    var seg := lines[start..idx + 1];
    SingleBlock(seg);
    assert lines[..idx + 1] == lines[..start] + seg;
    SegmentsGroupLines(lines[..start]);
    EndsAtBlank(lines[..start], segs);
    GroupingAppend(lines[..start], segs, seg, [seg]);
    GroupingUnique(lines[..idx + 1], segs + [seg]);
  }

  lemma SingleBlock(seg: seq<string>)
    requires seg != [] && forall j :: 0 <= j < |seg| - 1 ==> seg[j] != ""
    ensures IsGrouping(seg, [seg])
  {
    assert Flatten([seg]) == seg + Flatten([]);
  }

  lemma BlocksOfAppend(segs: seq<seq<string>>, seg: seq<string>)
    ensures BlocksOf(segs + [seg]) == BlocksOf(segs) + [Spaced(seg)]
  {
  }

  /** Appending one more line to the builder. */
  lemma SpacedSnoc(ls: seq<string>, l: string)
    ensures Spaced(ls + [l]) == Spaced(ls) + " " + l
  {
    assert (ls + [l])[..|ls|] == ls;
  }

  /** The blocks of the lines up to a block boundary are the first blocks of all the lines. */
  lemma PrefixBlocks(lines: seq<string>, n: nat, segs: seq<seq<string>>)
    requires n <= |lines| && Segments(lines[..n]) == segs
    requires n == 0 || lines[n - 1] == "" || n == |lines|
    ensures |segs| <= |Blocks(lines)| && BlocksOf(segs) == Blocks(lines)[..|segs|]
  {
    var rest := lines[n..];
    assert lines[..n] + rest == lines;
    SegmentsGroupLines(lines[..n]);
    SegmentsGroupLines(rest);
    if n < |lines| {
      EndsAtBlank(lines[..n], segs);
    }
    GroupingAppend(lines[..n], segs, rest, Segments(rest));
    GroupingUnique(lines, segs + Segments(rest));
  }

  /** A block that does not parse stops the whole stream. */
  lemma FailedBlock(lines: seq<string>, n: nat, segs: seq<seq<string>>)
    requires 0 < n <= |lines| && Segments(lines[..n]) == segs && segs != []
    requires lines[n - 1] == "" || n == |lines|
    requires ParseRecord(Spaced(segs[|segs| - 1])).None?
    ensures ParseAll(Blocks(lines)) == None
  {
    PrefixBlocks(lines, n, segs);
    ParseAllSpec(Blocks(lines));
    assert Blocks(lines)[|segs| - 1] == BlocksOf(segs)[|segs| - 1];
  }

  /** The state of `RecordIterator` after the lines before `idx`: whole blocks, then the open block `cur`. */
  ghost predicate Scanned(lines: seq<string>, idx: nat, start: nat, segs: seq<seq<string>>, cur: seq<string>, builder: string, out: seq<Record>)
  {
    && start <= idx <= |lines| && (start == idx || idx < |lines|)
    && Segments(lines[..start]) == segs
    && (start == 0 || lines[start - 1] == "" || start == |lines|)
    && cur == lines[start..idx]
    && "" !in cur
    && builder == Spaced(cur)
    && ParseAll(BlocksOf(segs)) == Some(out)
  }

  lemma ScanLine(lines: seq<string>, idx: nat, start: nat, segs: seq<seq<string>>, cur: seq<string>, builder: string, out: seq<Record>)
    requires idx < |lines| && Scanned(lines, idx, start, segs, cur, builder, out)
    requires lines[idx] != "" && idx < |lines| - 1
    ensures Scanned(lines, idx + 1, start, segs, cur + [lines[idx]], builder + " " + lines[idx], out)
  {
    SpacedSnoc(cur, lines[idx]);
    assert cur + [lines[idx]] == lines[start..idx + 1];
  }

  lemma EndBlock(lines: seq<string>, idx: nat, start: nat, segs: seq<seq<string>>, cur: seq<string>, builder: string, out: seq<Record>)
    requires idx < |lines| && Scanned(lines, idx, start, segs, cur, builder, out)
    requires lines[idx] == "" || idx == |lines| - 1
    ensures Segments(lines[..idx + 1]) == segs + [cur + [lines[idx]]]
    ensures Spaced(cur + [lines[idx]]) == builder + " " + lines[idx]
  {
    SpacedSnoc(cur, lines[idx]);
    assert cur + [lines[idx]] == lines[start..idx + 1];
    CloseBlock(lines, start, idx, segs);
  }

  /** A closed block that makes `RecordFromString` panic ends the stream: no records at all. */
  lemma BlockFails(lines: seq<string>, idx: nat, start: nat, segs: seq<seq<string>>, cur: seq<string>, builder: string, out: seq<Record>)
    requires idx < |lines| && Scanned(lines, idx, start, segs, cur, builder, out)
    requires lines[idx] == "" || idx == |lines| - 1
    requires ParseRecord(builder + " " + lines[idx]).None?
    ensures ParseAll(Blocks(lines)) == None
  {
    EndBlock(lines, idx, start, segs, cur, builder, out);
    var closed := segs + [cur + [lines[idx]]];
    assert closed[|closed| - 1] == cur + [lines[idx]];
    FailedBlock(lines, idx + 1, closed);
  }

  /** A closed block that parses adds its record to the stream, and a new block opens. */
  lemma BlockParsed(lines: seq<string>, idx: nat, start: nat, segs: seq<seq<string>>, cur: seq<string>, builder: string, out: seq<Record>, r: Record)
    requires idx < |lines| && Scanned(lines, idx, start, segs, cur, builder, out)
    requires lines[idx] == "" || idx == |lines| - 1
    requires ParseRecord(builder + " " + lines[idx]) == Some(r)
    ensures Scanned(lines, idx + 1, idx + 1, segs + [cur + [lines[idx]]], [], "", out + [r])
  {
    EndBlock(lines, idx, start, segs, cur, builder, out);
    BlocksOfAppend(segs, cur + [lines[idx]]);
    ParseAllAppend(BlocksOf(segs), builder + " " + lines[idx], out, r);
  }

  /** After the last line every block is closed, and the records are those of all the blocks. */
  lemma Finished(lines: seq<string>, start: nat, segs: seq<seq<string>>, cur: seq<string>, builder: string, out: seq<Record>)
    requires Scanned(lines, |lines|, start, segs, cur, builder, out)
    ensures ParseAll(Blocks(lines)) == Some(out)
  {
    assert lines[..start] == lines;
  }

  /**
   * Builds the text of each block line by line, as the producer goroutine
   * does, and parses each block when it ends; the records come out in order.
   */
  method RecordIterator(lines: seq<string>) returns (records: Option<seq<Record>>)
    ensures records == ParseAll(Blocks(lines))
  {
    var out: seq<Record> := [];
    var builder := "";
    ghost var start := 0;
    ghost var segs: seq<seq<string>> := [];
    ghost var cur: seq<string> := [];
    for idx := 0 to |lines|
      invariant Scanned(lines, idx, start, segs, cur, builder, out)
    {
      ghost var before, open := builder, cur;
      builder := builder + " " + lines[idx];
      cur := cur + [lines[idx]];
      if lines[idx] == "" || idx == |lines| - 1 {
        var rec := RecordFromString(builder);
        if rec.None? {
          BlockFails(lines, idx, start, segs, open, before, out);
          return None;
        }
        BlockParsed(lines, idx, start, segs, open, before, out, rec.value);
        segs := segs + [cur];
        out := out + [rec.value];
        builder := "";
        start := idx + 1;
        cur := [];
      } else {
        ScanLine(lines, idx, start, segs, open, before, out);
      }
    }
    Finished(lines, start, segs, cur, builder, out);
    records := Some(out);
  }

  // ---------------------------------------------------------------------------
  // Consecutive blank lines

  /** A lone blank line is one block, whose text is a single space. */
  lemma BlankLineBlock()
    ensures Segments([""]) == [[""]] && Spaced([""]) == " "
  {
    var l: seq<string> := [""];
    assert BlockLength(l) == 1;
    assert l[..1] == l && l[1..] == [];
    assert l[..0] == [];
  }

  /** A block with no tokens is the blank record. */
  lemma SpaceIsBlank()
    ensures ParseRecord(" ") == Some(Blank)
  {
    assert Text.Words(" ") == Text.Words(" "[1..]);
    assert " "[1..] == [];
  }

  /**
   * A second blank line in a row is a block of its own, the text `" "`, which
   * has no tokens and so becomes an empty record that neither policy accepts.
   */
  lemma ConsecutiveBlankLines(lines: seq<string>)
    ensures Blocks(lines + ["", ""]) == Blocks(lines + [""]) + [" "]
    ensures ParseRecord(" ") == Some(Blank) && !IsValidv1(Blank) && !IsValidv2(Blank)
    ensures ParseAll(Blocks(lines + ["", ""])) ==
      match ParseAll(Blocks(lines + [""]))
      case None => None
      case Some(rs) => Some(rs + [Blank])
  {
    var a := lines + [""];
    assert lines + ["", ""] == a + [""];
    SegmentsAppend(a, [""]);
    BlankLineBlock();
    BlocksOfAppend(Segments(a), [""]);
    SpaceIsBlank();
    var bs := Blocks(a);
    assert (bs + [" "])[..|bs|] == bs;
  }

  // ---------------------------------------------------------------------------
  // The tokens of a block are the tokens of its lines

  /** The words of each line, one line after the other. */
  function WordsOfLines(ls: seq<string>): seq<string> {
    if ls == [] then [] else WordsOfLines(ls[..|ls| - 1]) + Text.Words(ls[|ls| - 1])
  }

  /**
   * The space written before every line keeps the last word of one line apart
   * from the first word of the next: the block's words are its lines' words.
   */
  lemma {:induction false} WordsOfSpaced(ls: seq<string>)
    ensures Text.Words(Spaced(ls)) == WordsOfLines(ls)
  {
    if ls != [] {
      var init, last := ls[..|ls| - 1], ls[|ls| - 1];
      WordsOfSpaced(init);
      assert Spaced(ls) == Spaced(init) + [' '] + last;
      Text.WordsAroundSpace(Spaced(init), ' ', last);
      assert Text.Words(Spaced(init) + [' '] + last) == Text.Words(Spaced(init)) + Text.Words(last);
      assert Text.Words(Spaced(init)) == WordsOfLines(init);
    }
  }

  /** The records of one line parsed on its own. */
  lemma ParseOne(b: string)
    ensures ParseAll([b]) == match ParseRecord(b) case None => None case Some(r) => Some([r])
  {
    var bs := [b];
    assert bs[..0] == [] && bs[0] == b;
    match ParseRecord(b)
    case None =>
    case Some(r) => assert [] + [r] == [r];
  }

  /**
   * Lines with no blank line before the last form one block, which parses to
   * the record of all their words in order, or panics.
   */
  lemma OneBlock(lines: seq<string>)
    requires lines != [] && forall j :: 0 <= j < |lines| - 1 ==> lines[j] != ""
    ensures Blocks(lines) == [Spaced(lines)]
    ensures ParseAll(Blocks(lines)) ==
      match ParseTokens(WordsOfLines(lines))
      case None => None
      case Some(r) => Some([r])
  {
    OneSegment(lines);
    assert BlocksOf([lines]) == [Spaced(lines)];
    ParseOne(Spaced(lines));
    WordsOfSpaced(lines);
  }

  /** Lines with no blank line before the last are a single block. */
  lemma OneSegment(lines: seq<string>)
    requires lines != [] && forall j :: 0 <= j < |lines| - 1 ==> lines[j] != ""
    ensures Segments(lines) == [lines]
  {
    SingleBlock(lines);
    GroupingUnique(lines, [lines]);
  }

  /** Two lines, each of words joined by single spaces, hold those words in order; the first is not blank. */
  lemma TwoLineWords(a: seq<string>, b: seq<string>)
    requires a != [] && forall i :: 0 <= i < |a| ==> Text.IsWord(a[i])
    requires forall i :: 0 <= i < |b| ==> Text.IsWord(b[i])
    ensures Text.Join(a, ' ') != ""
    ensures WordsOfLines([Text.Join(a, ' '), Text.Join(b, ' ')]) == a + b
  {
    var x, y := Text.Join(a, ' '), Text.Join(b, ' ');
    Text.WordsOfJoin(a);
    Text.WordsOfJoin(b);
    WordsOfTwoLines(x, y);
  }

  /** The words of two lines are the words of the first, then those of the second. */
  lemma WordsOfTwoLines(x: string, y: string)
    ensures WordsOfLines([x, y]) == Text.Words(x) + Text.Words(y)
  {
    var lines := [x, y];
    assert lines[..1] == [x] && [x][..0] == [];
    assert WordsOfLines([x]) == Text.Words(x);
  }

  /**
   * A passport whose tokens are spread over two lines, split after any token,
   * reads back as one record holding every field.
   */
  lemma TwoLinePassport(r: Record, k: nat)
    requires forall f :: Writable(Get(r, f))
    requires 0 < k < |FieldOrder|
    ensures var ts := Tokens(r);
            ParseAll(Blocks([Text.Join(ts[..k], ' '), Text.Join(ts[k..], ' ')])) == Some([r])
  {
    var ts := Tokens(r);
    forall i | 0 <= i < |ts| ensures Text.IsWord(ts[i]) {
      FormattedToken(r, i);
    }
    var a, b := ts[..k], ts[k..];
    TwoLineWords(a, b);
    assert a + b == ts;
    OneBlock([Text.Join(a, ' '), Text.Join(b, ' ')]);
    TokensRoundTrip(r);
  }
}
