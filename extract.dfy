/**
 * The record extractor (`parse_trs`): turns the rows of one listing page
 * into (number, title, singer) records, one per data row, in row order.
 *
 * A row is given as the list of its `td` children. Each cell is the list of
 * the texts that its `<br>` elements separate, together with how many child
 * elements the cell has (`len(td)`); giving every `<br>` a leading newline in
 * its tail makes the cell's text those texts joined by newlines.
 */
module Extract {
  import opened Wrappers
  import opened Text

  /** One `td`: the texts between its `<br>` elements, and its number of child elements. */
  datatype Cell = Cell(segments: seq<string>, elementCount: nat)

  /** One `tr`: its `td` children in document order. */
  datatype Row = Row(cells: seq<Cell>)

  datatype Record = Record(number: string, title: string, singer: string)

  /**
   * `td.text_content()` once every `<br>` inside it stands for a newline:
   * splitting it at newlines gives back the texts the `<br>` elements
   * separate, whenever there is at least one and none holds a newline itself.
   */
  function CellText(c: Cell): (s: string)
    ensures |c.segments| >= 1 && (forall i :: 0 <= i < |c.segments| ==> NL !in c.segments[i]) ==>
      Split(s) == c.segments
    ensures |c.segments| > 1 ==> NL in s
  {
    var lines := c.segments;
    assert |lines| >= 1 && (forall i :: 0 <= i < |lines| ==> NL !in lines[i]) ==> Split(Join(lines)) == lines by {
      if |lines| >= 1 && forall i :: 0 <= i < |lines| ==> NL !in lines[i] {
        SplitJoin(lines);
      }
    }
    JoinNewline(lines);
    Join(lines)
  }

  /**
   * The title/singer rule. A title of several lines is a foreign-script
   * entry whose lines are cross-spliced with the singer's; a singer of
   * several lines under a one-line title keeps only its first line; anything
   * else passes through. Both inputs arrive already stripped.
   */
  function Disambiguate(title: string, singer: string): (r: (string, string))
    ensures NL in title ==>
      r == (Strip(FirstLine(title)) + Strip(LastLine(singer)),
            Strip(FirstLine(singer)) + Strip(LastLine(title)))
    ensures NL !in title && NL in singer ==> r == (title, Strip(FirstLine(singer)))
    ensures NL !in title && NL !in singer ==> r == (title, singer)
  {
    SplitMany(title); SplitMany(singer);
    SplitFirst(title); SplitFirst(singer);
    SplitLast(title); SplitLast(singer);
    var t, s := Lines(title), Lines(singer);
    if |t| > 1 then (t[0] + s[|s| - 1], s[0] + t[|t| - 1])
    else if |s| > 1 then (title, s[0])
    else (title, singer)
  }

  /** What happens to one row: the lookup of its first cell raises, it is skipped, or it yields a record. */
  datatype RowOutcome = Raises | Skipped | Yields(record: Record)

  /**
   * One pass of the loop over rows. A row without any `td` makes the length
   * test fail with an exception; a row whose first `td` has no child element,
   * or that lacks a second, third or fourth `td`, is skipped.
   */
  function ExtractRow(row: Row): (o: RowOutcome)
    ensures o.Raises? <==> row.cells == []
    ensures o.Skipped? <==> row.cells != [] && (row.cells[0].elementCount == 0 || |row.cells| < 4)
    ensures o.Yields? ==> o.record.number == Strip(CellText(row.cells[1]))
  {
    if row.cells == [] then Raises
    else if row.cells[0].elementCount == 0 then Skipped
    else if |row.cells| < 4 then Skipped
    else
      var number := Strip(CellText(row.cells[1]));
      var title := Strip(CellText(row.cells[2]));
      var singer := Strip(CellText(row.cells[3]));
      var (t, s) := Disambiguate(title, singer);
      Yields(Record(number, t, s))
  }

  /** The records yielded by iterating over some rows, and the position of the row that raised, if one did. */
  datatype Parsed = Parsed(records: seq<Record>, raisedAt: Option<nat>)

  /** `p` seen from `n` rows earlier, after `before` had already been yielded. */
  function Prefixed(p: Parsed, before: seq<Record>, n: nat): Parsed
  {
    Parsed(before + p.records, if p.raisedAt.Some? then Some(p.raisedAt.value + n) else None)
  }

  /**
   * What a consumer of the generator collects, given what happens at each
   * row: the records in order, up to the first row that raises.
   */
  function Collect(outs: seq<RowOutcome>): (p: Parsed)
    ensures |p.records| <= |outs|
    ensures p.raisedAt.Some? ==> p.raisedAt.value < |outs|
  {
    if outs == [] then Parsed([], None)
    else
      match outs[0]
      case Raises => Parsed([], Some(0))
      case Skipped => Prefixed(Collect(outs[1..]), [], 1)
      case Yields(r) => Prefixed(Collect(outs[1..]), [r], 1)
  }

  function Outcomes(rows: seq<Row>): (outs: seq<RowOutcome>)
    ensures |outs| == |rows|
    ensures forall i :: 0 <= i < |rows| ==> outs[i] == ExtractRow(rows[i])
  {
    seq(|rows|, i requires 0 <= i < |rows| => ExtractRow(rows[i]))
  }

  /**
   * Everything iterating `parse_trs(rows)` produces: at most one record per
   * row, and, if iteration raises, the position of a row without any `td`.
   */
  function Parse(rows: seq<Row>): (p: Parsed)
    ensures |p.records| <= |rows|
    ensures p.raisedAt.Some? ==> p.raisedAt.value < |rows| && rows[p.raisedAt.value].cells == []
  {
    CollectStops(Outcomes(rows));
    Collect(Outcomes(rows))
  }

  lemma PrefixedTwice(p: Parsed, a: seq<Record>, b: seq<Record>, m: nat, n: nat)
    ensures Prefixed(Prefixed(p, b, m), a, n) == Prefixed(p, a + b, m + n)
  {
    assert a + (b + p.records) == (a + b) + p.records;
  }

  /** Collecting from position `i` on, one outcome at a time. */
  lemma CollectAt(outs: seq<RowOutcome>, i: nat)
    requires i < |outs|
    ensures outs[i].Raises? ==> Collect(outs[i..]) == Parsed([], Some(0))
    ensures outs[i].Skipped? ==> Collect(outs[i..]) == Prefixed(Collect(outs[i + 1..]), [], 1)
    ensures outs[i].Yields? ==> Collect(outs[i..]) == Prefixed(Collect(outs[i + 1..]), [outs[i].record], 1)
  {
    assert outs[i..][0] == outs[i] && outs[i..][1..] == outs[i + 1..];
  }

  /** Stepping past an outcome that does not raise adds the record it yields, if any. */
  lemma CollectPast(outs: seq<RowOutcome>, i: nat, records: seq<Record>, added: seq<Record>)
    requires i < |outs| && !outs[i].Raises?
    requires added == if outs[i].Yields? then [outs[i].record] else []
    requires Collect(outs) == Prefixed(Collect(outs[i..]), records, i)
    ensures Collect(outs) == Prefixed(Collect(outs[i + 1..]), records + added, i + 1)
  {
    CollectAt(outs, i);
    PrefixedTwice(Collect(outs[i + 1..]), records, added, 1, i);
  }

  /** Reaching an outcome that raises ends the collection there. */
  lemma CollectUpTo(outs: seq<RowOutcome>, i: nat, records: seq<Record>)
    requires i < |outs| && outs[i].Raises?
    requires Collect(outs) == Prefixed(Collect(outs[i..]), records, i)
    ensures Collect(outs) == Parsed(records, Some(i))
  {
    CollectAt(outs, i);
    assert records + [] == records;
  }

  /** The row loop of `parse_trs`: what it yields, and where it raises. */
  method ParseTrs(rows: seq<Row>) returns (records: seq<Record>, raisedAt: Option<nat>)
    ensures Parsed(records, raisedAt) == Parse(rows)
  {
    ghost var outs := Outcomes(rows);
    records, raisedAt := [], None;
    var i := 0;
    while i < |rows|
      invariant 0 <= i <= |rows|
      invariant Collect(outs) == Prefixed(Collect(outs[i..]), records, i)
    {
      var o := ExtractRow(rows[i]);
      assert o == outs[i];
      if o.Raises? {
        CollectUpTo(outs, i, records);
        raisedAt := Some(i);
        return;
      }
      var added := if o.Yields? then [o.record] else [];
      CollectPast(outs, i, records, added);
      records := records + added;
      i := i + 1;
    }
    assert outs[i..] == [];
    assert records + [] == records;
  }

  /** Iteration stops at the first row that raises, and only there. */
  lemma {:induction false} CollectStops(outs: seq<RowOutcome>)
    ensures var p := Collect(outs);
      p.raisedAt.Some? ==> outs[p.raisedAt.value].Raises? &&
                           forall i :: 0 <= i < p.raisedAt.value ==> !outs[i].Raises?
    ensures Collect(outs).raisedAt.None? <==> forall i :: 0 <= i < |outs| ==> !outs[i].Raises?
  {
    if outs != [] {
      CollectStops(outs[1..]);
      assert forall i :: 1 <= i < |outs| ==> outs[i] == outs[1..][i - 1];
    }
  }

  /**
   * The first row without any `td` is where `parse_trs` raises, and it
   * raises nowhere else; the records yielded before it are kept.
   */
  lemma ParseStops(rows: seq<Row>)
    ensures var p := Parse(rows);
      p.raisedAt.Some? ==> rows[p.raisedAt.value].cells == [] &&
                           forall i :: 0 <= i < p.raisedAt.value ==> rows[i].cells != []
    ensures Parse(rows).raisedAt.None? <==> forall i :: 0 <= i < |rows| ==> rows[i].cells != []
    ensures var p := Parse(rows);
      p.raisedAt.Some? ==> Parse(rows[..p.raisedAt.value]) == Parsed(p.records, None)
  {
    var outs := Outcomes(rows);
    CollectStops(outs);
    if Collect(outs).raisedAt.Some? {
      var e := Collect(outs).raisedAt.value;
      CollectBefore(outs);
      assert Outcomes(rows[..e]) == outs[..e];
    }
  }

  /** The records collected before a raise are what the rows before it give on their own. */
  lemma {:induction false} CollectBefore(outs: seq<RowOutcome>)
    requires Collect(outs).raisedAt.Some?
    ensures Collect(outs[..Collect(outs).raisedAt.value]) == Parsed(Collect(outs).records, None)
  {
    if outs[0].Raises? {
      assert outs[..0] == [];
    } else {
      var tail := outs[1..];
      CollectBefore(tail);
      var e := Collect(tail).raisedAt.value;
      var pre := outs[..e + 1];
      assert pre[0] == outs[0] && pre[1..] == tail[..e];
    }
  }

  /** The row where collecting stops: the one that raised, or the end. */
  function End(outs: seq<RowOutcome>): (e: nat)
    ensures e <= |outs|
  {
    var p := Collect(outs);
    if p.raisedAt.Some? then p.raisedAt.value else |outs|
  }

  /** Every index one further on. */
  function Shift(idx: seq<nat>): (r: seq<nat>)
    ensures |r| == |idx|
    ensures forall k :: 0 <= k < |idx| ==> r[k] == idx[k] + 1
  {
    seq(|idx|, k requires 0 <= k < |idx| => idx[k] + 1)
  }

  /** The positions of the outcomes that are collected as records. */
  function Origins(outs: seq<RowOutcome>): (idx: seq<nat>)
    ensures |idx| == |Collect(outs).records|
  {
    if outs == [] || outs[0].Raises? then []
    else if outs[0].Yields? then [0] + Shift(Origins(outs[1..]))
    else Shift(Origins(outs[1..]))
  }

  predicate Increasing(idx: seq<nat>)
  {
    forall k, l :: 0 <= k < l < |idx| ==> idx[k] < idx[l]
  }

  lemma {:induction false} OriginsIncrease(outs: seq<RowOutcome>)
    ensures Increasing(Origins(outs))
  {
    if outs != [] && !outs[0].Raises? {
      var rest := Origins(outs[1..]);
      OriginsIncrease(outs[1..]);
      assert Increasing(Shift(rest));
    }
  }

  /** One step of collecting past an outcome that does not raise. */
  lemma CollectStep(outs: seq<RowOutcome>)
    requires outs != [] && !outs[0].Raises?
    ensures Collect(outs).records ==
      (if outs[0].Yields? then [outs[0].record] else []) + Collect(outs[1..]).records
    ensures End(outs) == End(outs[1..]) + 1
  {
  }

  lemma {:induction false} OriginsSound(outs: seq<RowOutcome>)
    ensures forall k :: 0 <= k < |Origins(outs)| ==>
      Origins(outs)[k] < End(outs) && outs[Origins(outs)[k]] == Yields(Collect(outs).records[k])
  {
    if outs != [] && !outs[0].Raises? {
      var tail := outs[1..];
      OriginsSound(tail);
      CollectStep(outs);
      var rest, idx := Origins(tail), Origins(outs);
      var recs, tailRecs := Collect(outs).records, Collect(tail).records;
      var d := if outs[0].Yields? then 1 else 0;
      forall k | 0 <= k < |idx|
        ensures idx[k] < End(outs) && outs[idx[k]] == Yields(recs[k])
      {
        if k < d {
          assert idx[k] == 0;
        } else {
          assert idx[k] == rest[k - d] + 1;
          assert recs[k] == tailRecs[k - d];
        }
      }
    }
  }

  lemma {:induction false} OriginsComplete(outs: seq<RowOutcome>)
    ensures forall i :: 0 <= i < End(outs) && outs[i].Yields? ==> i in Origins(outs)
  {
    if outs != [] && !outs[0].Raises? {
      var tail := outs[1..];
      OriginsComplete(tail);
      var rest, idx := Origins(tail), Origins(outs);
      assert End(outs) == End(tail) + 1;
      var d := if outs[0].Yields? then 1 else 0;
      forall i | 0 < i < End(outs) && outs[i].Yields? ensures i in idx {
        assert outs[i] == tail[i - 1];
        var k :| 0 <= k < |rest| && rest[k] == i - 1;
        assert idx[k + d] == i;
      }
    }
  }

  /**
   * Each collected record comes from its own row, in row order, and every
   * row before the stopping point that yields a record contributes it.
   */
  lemma CollectOrigins(outs: seq<RowOutcome>) returns (idx: seq<nat>)
    ensures |idx| == |Collect(outs).records|
    ensures forall k, l :: 0 <= k < l < |idx| ==> idx[k] < idx[l]
    ensures forall k :: 0 <= k < |idx| ==>
      idx[k] < End(outs) && outs[idx[k]] == Yields(Collect(outs).records[k])
    ensures forall i :: 0 <= i < End(outs) && outs[i].Yields? ==> i in idx
  {
    idx := Origins(outs);
    OriginsIncrease(outs);
    OriginsSound(outs);
    OriginsComplete(outs);
  }

  /**
   * `parse_trs` yields at most one record per row, each from its own row and
   * in row order, and one for every row before the stopping point that has a
   * first cell with child elements and a second, third and fourth cell.
   */
  lemma ParseOrigins(rows: seq<Row>) returns (idx: seq<nat>)
    ensures |idx| == |Parse(rows).records| <= |rows|
    ensures forall k, l :: 0 <= k < l < |idx| ==> idx[k] < idx[l]
    ensures forall k :: 0 <= k < |idx| ==> idx[k] < End(Outcomes(rows)) && ExtractRow(rows[idx[k]]) == Yields(Parse(rows).records[k])
    ensures forall i :: 0 <= i < End(Outcomes(rows)) && |rows[i].cells| >= 4 && rows[i].cells[0].elementCount > 0 ==> i in idx
  {
    idx := CollectOrigins(Outcomes(rows));
  }

  /** A stripped single-line text is its own only line. */
  lemma OneLine(s: string)
    requires Trimmed(s) && |Lines(s)| == 1
    ensures Lines(s)[0] == s
  {
    SplitMany(s);
    SplitWithoutNewline(s);
    StripUnique([], s, []);
    assert [] + s + [] == s;
  }

  /**
   * The title/singer rule read on the stripped lines `T` of the title and
   * `S` of the singer, for a title and singer that are themselves stripped.
   */
  lemma DisambiguateLines(title: string, singer: string)
    requires Trimmed(title) && Trimmed(singer)
    ensures
      var T, S := Lines(title), Lines(singer);
      Disambiguate(title, singer) ==
        (if |T| > 1 then T[0] + S[|S| - 1] else T[0],
         if |T| > 1 then S[0] + T[|T| - 1] else S[0])
  {
    var T, S := Lines(title), Lines(singer);
    SplitMany(title); SplitMany(singer);
    if |T| == 1 {
      OneLine(title);
      if |S| == 1 {
        OneLine(singer);
      } else {
        SplitFirst(singer);
      }
    } else {
      SplitFirst(title); SplitFirst(singer);
      SplitLast(title); SplitLast(singer);
    }
  }

  /** A row with a first cell holding elements and at least four cells yields the rule applied to its stripped cells. */
  lemma ExtractRowYields(row: Row)
    requires |row.cells| >= 4 && row.cells[0].elementCount > 0
    ensures
      var d := Disambiguate(Strip(CellText(row.cells[2])), Strip(CellText(row.cells[3])));
      ExtractRow(row) == Yields(Record(Strip(CellText(row.cells[1])), d.0, d.1))
  {
  }

  /** The title/singer rule on two cells whose first and last lines show text. */
  lemma CellsRule(title: Cell, singer: Cell)
    requires VisibleLines(title.segments) && VisibleLines(singer.segments)
    ensures
      var T, S := StripEach(title.segments), StripEach(singer.segments);
      Disambiguate(Strip(CellText(title)), Strip(CellText(singer))) ==
        (if |T| > 1 then T[0] + S[|S| - 1] else T[0],
         if |T| > 1 then S[0] + T[|T| - 1] else S[0])
  {
    CellLines(title.segments);
    CellLines(singer.segments);
    DisambiguateLines(Strip(CellText(title)), Strip(CellText(singer)));
  }

  /**
   * The rule on the lines a reader of the table sees: with title lines `T`
   * and singer lines `S`, a multi-line title gives title T[0]+S[last] and
   * singer S[0]+T[last]; otherwise the title is T[0] and the singer S[0].
   */
  lemma RowRecord(row: Row)
    requires |row.cells| >= 4 && row.cells[0].elementCount > 0
    requires VisibleLines(row.cells[2].segments) && VisibleLines(row.cells[3].segments)
    ensures
      var T, S := StripEach(row.cells[2].segments), StripEach(row.cells[3].segments);
      ExtractRow(row) == Yields(Record(
        Strip(CellText(row.cells[1])),
        if |T| > 1 then T[0] + S[|S| - 1] else T[0],
        if |T| > 1 then S[0] + T[|T| - 1] else S[0]))
  {
    ExtractRowYields(row);
    CellsRule(row.cells[2], row.cells[3]);
  }

  /** A title and a singer of one line each come through stripped and otherwise unchanged. */
  lemma RowPassThrough(row: Row)
    requires |row.cells| >= 4 && row.cells[0].elementCount > 0
    requires NL !in Strip(CellText(row.cells[2])) && NL !in Strip(CellText(row.cells[3]))
    ensures ExtractRow(row) == Yields(Record(
      Strip(CellText(row.cells[1])), Strip(CellText(row.cells[2])), Strip(CellText(row.cells[3]))))
  {
    ExtractRowYields(row);
  }
}
