/** The text of a simulator state that is built from lists of numbers: tab-separated rows,
    and the data dump in rows of eight. */
module Dump {
  import Bits
  import opened Decoder
  import opened Text

  /** The values as decimal numbers. */
  function Decimals(values: seq<int>): (texts: seq<string>)
    ensures |texts| == |values|
  {
    seq(|values|, k requires 0 <= k < |values| => IntToDecimal(values[k]))
  }

  /** A labelled row: the tag and the values, separated by tabs. */
  function Fields(tag: string, values: seq<int>): string
  {
    Join([tag] + Decimals(values), '\t')
  }

  /** A row splits at its tabs into the tag and the values in decimal, which
      `IntToDecimal` shows read back. */
  lemma RowFields(tag: string, values: seq<int>)
    requires '\t' !in tag
    ensures Split(Fields(tag, values), '\t') == [tag] + Decimals(values)
  {
    var parts := [tag] + Decimals(values);
    forall k | 0 <= k < |parts|
      ensures '\t' !in parts[k]
    {
      if k > 0 {
        DecimalAvoids(values[k - 1], '\t');
      }
    }
    SplitJoin(parts, '\t');
  }

  /** A row with a one-line tag is one line. */
  lemma FieldsOneLine(tag: string, values: seq<int>)
    requires '\n' !in tag
    ensures '\n' !in Fields(tag, values)
  {
    var parts := [tag] + Decimals(values);
    forall k | 0 <= k < |parts|
      ensures '\n' !in parts[k]
    {
      if k > 0 {
        DecimalAvoids(values[k - 1], '\n');
      }
    }
    JoinAvoids(parts, '\t', '\n');
  }

  /** The values of data entries, as Go's `int`. */
  function Values(data: seq<Data>): (values: seq<int>)
    ensures |values| == |data|
  {
    seq(|data|, k requires 0 <= k < |data| => data[k].value as int)
  }

  /** A row of the data dump as far as it goes: the position of its first entry, a colon,
      and the values so far. */
  function OpenRow(chunk: seq<Data>): string
    requires chunk != []
  {
    Fields(IntToDecimal(chunk[0].pos) + ":", Values(chunk))
  }

  function DataRow(chunk: seq<Data>): string
    requires chunk != []
  {
    OpenRow(chunk) + "\n"
  }

  /** Reference for the data dump: the entries in rows of eight, the last row possibly
      shorter, each row on its own line. */
  function DataRows(data: seq<Data>): string
    decreases |data|
  {
    if data == [] then ""
    else
      var n := if |data| < 8 then |data| else 8;
      DataRow(data[..n]) + DataRows(data[n..])
  }

  /** Rows of complete eights followed by one more row. */
  lemma {:induction false} DataRowsAppend(rows: seq<Data>, chunk: seq<Data>)
    requires |rows| % 8 == 0 && 1 <= |chunk| <= 8
    ensures DataRows(rows + chunk) == DataRows(rows) + DataRow(chunk)
    decreases |rows|
  {
    if rows == [] {
      assert rows + chunk == chunk;
      assert chunk[..|chunk|] == chunk;
    } else {
      var all := rows + chunk;
      assert all[..8] == rows[..8];
      assert all[8..] == rows[8..] + chunk;
      DataRowsAppend(rows[8..], chunk);
    }
  }

  /** One more value on an open row: a tab and the value. */
  lemma {:induction false} OpenRowExtend(chunk: seq<Data>, d: Data)
    requires chunk != []
    ensures OpenRow(chunk + [d]) == OpenRow(chunk) + ("\t" + IntToDecimal(d.value))
  {
    var tag := IntToDecimal(chunk[0].pos) + ":";
    var parts := [tag] + Decimals(Values(chunk));
    assert [tag] + Decimals(Values(chunk + [d])) == parts + [IntToDecimal(d.value)];
    assert (chunk + [d])[0] == chunk[0];
  }

  /** A row's first value follows its position, a colon and a tab. */
  lemma OpenRowSingle(d: Data)
    ensures OpenRow([d]) == IntToDecimal(d.pos) + ":\t" + IntToDecimal(d.value)
  {
    var pos, v := IntToDecimal(d.pos), IntToDecimal(d.value);
    var tag := pos + ":";
    assert Values([d]) == [d.value as int];
    assert Decimals([d.value as int]) == [v];
    var parts := [tag] + [v];
    assert parts[..1] == [tag];
    assert Join(parts, '\t') == Join([tag], '\t') + ['\t'] + v;
    assert Join([tag], '\t') == tag;
    assert tag + ['\t'] + v == pos + ":\t" + v;
  }

  /** The text the data dump adds for one entry, given how many entries the current row
      already holds: the row's position and the value for the first, a tab and the value
      otherwise, and the end of the line after the eighth. */
  function Piece(eightCount: nat, d: Data): string
  {
    if eightCount == 0 then IntToDecimal(d.pos) + ":\t" + IntToDecimal(d.value)
    else if eightCount == 7 then "\t" + IntToDecimal(d.value) + "\n"
    else "\t" + IntToDecimal(d.value)
  }

  /** The dump of the first `n` entries, with the last `count` of them on an unfinished row. */
  function Dumped(data: seq<Data>, n: nat, count: nat): string
    requires count <= n <= |data|
  {
    if count == 0 then DataRows(data[..n])
    else DataRows(data[..n - count]) + OpenRow(data[n - count..n])
  }

  /** The first entry of a row opens it. */
  lemma {:induction false} DumpOpen(data: seq<Data>, n: nat)
    requires n < |data|
    ensures Dumped(data, n + 1, 1) == Dumped(data, n, 0) + Piece(0, data[n])
  {
    assert data[n..n + 1] == [data[n]];
    OpenRowSingle(data[n]);
  }

  /** An entry inside a row extends it. */
  lemma {:induction false} DumpExtend(data: seq<Data>, n: nat, count: nat)
    requires 0 < count < 7 && count <= n < |data|
    ensures Dumped(data, n + 1, count + 1) == Dumped(data, n, count) + Piece(count, data[n])
  {
    var start := n - count;
    var open := data[start..n];
    assert data[start..n + 1] == open + [data[n]];
    OpenRowExtend(open, data[n]);
    Regroup(DataRows(data[..start]), OpenRow(open), "\t" + IntToDecimal(data[n].value));
  }

  /** Concatenation regroups freely. */
  lemma Regroup(a: string, b: string, c: string)
    ensures a + (b + c) == (a + b) + c
  {
  }

  /** A closed row is the open row, then the last piece. */
  lemma CloseText(whole: string, rows: string, row: string, open: string, last: string)
    requires whole == rows + (row + "\n") && row == open + last
    ensures whole == (rows + open) + (last + "\n")
  {
  }

  /** Whole rows, then a row of eight: its first seven values and the eighth, which ends
      the line. */
  lemma {:induction false} RowsThenFullRow(rows: seq<Data>, open: seq<Data>, d: Data)
    requires |rows| % 8 == 0 && |open| == 7
    ensures DataRows(rows + (open + [d])) == (DataRows(rows) + OpenRow(open)) + ("\t" + IntToDecimal(d.value) + "\n")
  {
    var v := IntToDecimal(d.value);
    assert OpenRow(open + [d]) == OpenRow(open) + ("\t" + v) by {
      OpenRowExtend(open, d);
    }
    assert DataRows(rows + (open + [d])) == DataRows(rows) + (OpenRow(open + [d]) + "\n") by {
      DataRowsAppend(rows, open + [d]);
    }
    CloseText(DataRows(rows + (open + [d])), DataRows(rows), OpenRow(open + [d]), OpenRow(open), "\t" + v);
  }

  /** The eighth entry of a row closes it. */
  lemma {:induction false} DumpClose(data: seq<Data>, n: nat)
    requires 7 <= n < |data| && (n - 7) % 8 == 0
    ensures Dumped(data, n + 1, 0) == Dumped(data, n, 7) + Piece(7, data[n])
  {
    var start := n - 7;
    assert data[..n + 1] == data[..start] + (data[start..n] + [data[n]]);
    RowsThenFullRow(data[..start], data[start..n], data[n]);
  }

  /** The count of entries on the row moves on by one, and wraps after eight. */
  lemma NextSlot(n: nat)
    ensures (n % 8 + 1) % 8 == (n + 1) % 8
    ensures n % 8 < 7 ==> (n + 1) % 8 == n % 8 + 1
    ensures n % 8 == 7 ==> (n + 1) % 8 == 0 && (n - 7) % 8 == 0
    ensures n % 8 <= n
  {
    assert n == (n / 8) * 8 + n % 8;
    if n % 8 < 7 {
      Bits.Peel(n / 8, n % 8 + 1, 8);
    } else {
      Bits.Peel(n / 8 + 1, 0, 8);
      Bits.Peel(n / 8, 0, 8);
    }
  }

  /** Each entry adds its piece to the dump, and the count of entries on the row moves on. */
  lemma {:induction false} DumpAdvance(data: seq<Data>, n: nat)
    requires n < |data|
    ensures (n % 8 + 1) % 8 == (n + 1) % 8
    ensures Dumped(data, n + 1, (n + 1) % 8) == Dumped(data, n, n % 8) + Piece(n % 8, data[n])
  {
    NextSlot(n);
    var count := n % 8;
    if count == 0 {
      DumpOpen(data, n);
    } else if count == 7 {
      DumpClose(data, n);
    } else {
      DumpExtend(data, n, count);
    }
  }

  /** Whole rows up to `start`, then the rest as one more row. */
  lemma {:induction false} DataRowsSplit(data: seq<Data>, start: nat)
    requires start % 8 == 0 && start < |data| <= start + 8
    ensures DataRows(data) == DataRows(data[..start]) + DataRow(data[start..])
    decreases start
  {
    if start == 0 {
      assert data[..|data|] == data && data[|data|..] == [] && data[0..] == data;
    } else {
      assert (start - 8) % 8 == 0 by {
        assert start == (start / 8) * 8;
        Bits.Peel(start / 8 - 1, 0, 8);
      }
      var rest := data[8..];
      FirstRow(data, start);
      DataRowsSplit(rest, start - 8);
      assert rest[start - 8..] == data[start..];
      Regroup(DataRow(data[..8]), DataRows(rest[..start - 8]), DataRow(data[start..]));
    }
  }

  /** Past the first eight entries, both the whole dump and the dump up to `start` begin
      with the same first row. */
  lemma FirstRow(data: seq<Data>, start: nat)
    requires 8 <= start < |data|
    ensures DataRows(data) == DataRow(data[..8]) + DataRows(data[8..])
    ensures DataRows(data[..start]) == DataRow(data[..8]) + DataRows(data[8..][..start - 8])
  {
    assert data[..start][..8] == data[..8];
    assert data[..start][8..] == data[8..][..start - 8];
  }

  /** A dump ending in an unfinished row: the whole rows, then the open one. */
  lemma {:induction false} DumpedOpen(data: seq<Data>, count: nat)
    requires 0 < count <= |data|
    ensures Dumped(data, |data|, count) == DataRows(data[..|data| - count]) + OpenRow(data[|data| - count..])
  {
    assert data[|data| - count..|data|] == data[|data| - count..];
  }

  /** At the end, an unfinished row is closed by the end of its line. */
  lemma {:induction false} DumpEndOpen(data: seq<Data>, count: nat)
    requires 0 < count < 8 && count <= |data| && (|data| - count) % 8 == 0
    ensures Dumped(data, |data|, count) + "\n" == DataRows(data)
  {
    var start := |data| - count;
    DumpedOpen(data, count);
    DataRowsSplit(data, start);
    Regroup(DataRows(data[..start]), OpenRow(data[start..]), "\n");
  }

  /** At the end, with no unfinished row, the dump is complete. */
  lemma {:induction false} DumpEndClosed(data: seq<Data>)
    ensures Dumped(data, |data|, 0) == DataRows(data)
  {
    assert data[..|data|] == data;
  }

  /** Closing the unfinished row, if any, completes the dump. */
  lemma {:induction false} DumpEnd(data: seq<Data>)
    ensures |data| % 8 != 0 ==> Dumped(data, |data|, |data| % 8) + "\n" == DataRows(data)
    ensures |data| % 8 == 0 ==> Dumped(data, |data|, 0) == DataRows(data)
  {
    var count := |data| % 8;
    EndSlot(|data|);
    if count != 0 {
      DumpEndOpen(data, count);
    } else {
      DumpEndClosed(data);
    }
  }

  /** The data dump as the source builds it, one entry at a time with a count of the
      entries on the current row. */
  method DumpData(data: seq<Data>) returns (result: string)
    ensures result == DataRows(data)
  {
    result := "";
    var eightCount := 0;
    for n := 0 to |data|
      invariant eightCount == n % 8
      invariant result == Dumped(data, n, eightCount)
    {
      DumpAdvance(data, n);
      result := result + Piece(eightCount, data[n]);
      eightCount := (eightCount + 1) % 8;
    }
    DumpEnd(data);
    if eightCount != 0 {
      result := result + "\n";
    }
  }

  /** The entries before the unfinished row fill whole rows of eight. */
  lemma EndSlot(n: nat)
    ensures n % 8 <= n && (n - n % 8) % 8 == 0
  {
    assert n == (n / 8) * 8 + n % 8;
    Bits.Peel(n / 8, 0, 8);
  }
}
