/** The pieces of Go's `fmt` formatting the simulator relies on: `%d` of an integer,
    and strings glued together with separators. */
module Text {

  predicate IsDigit(c: char)
  {
    '0' <= c <= '9'
  }

  predicate IsDecimal(s: string)
  {
    |s| >= 1 && forall i :: 0 <= i < |s| ==> IsDigit(s[i])
  }

  function DigitChar(d: nat): (c: char)
    requires d < 10
    ensures IsDigit(c) && c as int - '0' as int == d
  {
    ('0' as int + d) as char
  }

  /** `%d` of a non-negative integer: most significant digit first, no leading zeros. */
  function NatToDecimal(n: nat): (s: string)
    ensures IsDecimal(s)
    ensures s[0] == '0' ==> n == 0
    decreases n
  {
    if n < 10 then [DigitChar(n)] else NatToDecimal(n / 10) + [DigitChar(n % 10)]
  }

  /** Reads a string of decimal digits back as a number: the inverse of `NatToDecimal`,
      as `DecimalRoundTrip` states. */
  function DecimalValue(s: string): nat
    requires forall i :: 0 <= i < |s| ==> IsDigit(s[i])
  {
    if s == [] then 0
    else
      assert IsDigit(s[|s| - 1]);
      10 * DecimalValue(s[..|s| - 1]) + (s[|s| - 1] as int - '0' as int)
  }

  lemma {:induction false} DecimalRoundTrip(n: nat)
    ensures DecimalValue(NatToDecimal(n)) == n
    decreases n
  {
    var s := NatToDecimal(n);
    if n >= 10 {
      DecimalRoundTrip(n / 10);
      assert s[..|s| - 1] == NatToDecimal(n / 10);
    }
  }

  /** `%d` of any integer: a minus sign before the digits of the magnitude. */
  function IntToDecimal(i: int): (s: string)
  {
    if i < 0 then "-" + NatToDecimal(-i) else NatToDecimal(i)
  }

  /** The decimal text reads back as the number: a minus sign exactly for a negative
      number, then the digits of its magnitude. */
  lemma IntToDecimalReadsBack(i: int)
    ensures var s := IntToDecimal(i);
      && |s| >= 1
      && (s[0] == '-' <==> i < 0)
      && (i < 0 ==> IsDecimal(s[1..]) && DecimalValue(s[1..]) == -i)
      && (i >= 0 ==> IsDecimal(s) && DecimalValue(s) == i)
  {
    var s := IntToDecimal(i);
    DecimalRoundTrip(if i < 0 then -i else i);
    if i < 0 {
      assert s[1..] == NatToDecimal(-i);
    }
  }

  /** The parts laid end to end. */
  function Concat(parts: seq<string>): string
  {
    if parts == [] then "" else Concat(parts[..|parts| - 1]) + parts[|parts| - 1]
  }

  /** The parts with `sep` between each neighbouring pair, as a Go format string
      `"%s %s %s"` lays them out. */
  function Join(parts: seq<string>, sep: char): string
  {
    if parts == [] then ""
    else if |parts| == 1 then parts[0]
    else Join(parts[..|parts| - 1], sep) + [sep] + parts[|parts| - 1]
  }

  /** The string with every occurrence of `c` deleted. */
  function Delete(s: string, c: char): (r: string)
    ensures |r| <= |s|
    ensures c !in r
  {
    if s == [] then ""
    else Delete(s[..|s| - 1], c) + (if s[|s| - 1] == c then "" else [s[|s| - 1]])
  }

  lemma {:induction false} DeleteAppend(a: string, b: string, c: char)
    ensures Delete(a + b, c) == Delete(a, c) + Delete(b, c)
    decreases |b|
  {
    if b == [] {
      assert a + b == a;
    } else {
      var b' := b[..|b| - 1];
      assert (a + b)[..|a + b| - 1] == a + b';
      DeleteAppend(a, b', c);
    }
  }

  lemma {:induction false} DeleteAbsent(s: string, c: char)
    requires c !in s
    ensures Delete(s, c) == s
    decreases |s|
  {
    if s != [] {
      DeleteAbsent(s[..|s| - 1], c);
    }
  }

  /** Deleting the separator from a join of separator-free parts gives back their
      concatenation. */
  lemma {:induction false} DeleteJoin(parts: seq<string>, sep: char)
    requires forall k :: 0 <= k < |parts| ==> sep !in parts[k]
    ensures Delete(Join(parts, sep), sep) == Concat(parts)
    decreases |parts|
  {
    if |parts| == 1 {
      DeleteAbsent(parts[0], sep);
      assert Concat(parts) == Concat([]) + parts[0];
    } else if |parts| > 1 {
      var init, last := parts[..|parts| - 1], parts[|parts| - 1];
      var j := Join(init, sep);
      assert Join(parts, sep) == j + [sep] + last;
      assert Concat(parts) == Concat(init) + last;
      assert Delete(j, sep) == Concat(init) by {
        DeleteJoin(init, sep);
      }
      assert Delete(j + [sep], sep) == Delete(j, sep) by {
        DeleteAppend(j, [sep], sep);
        assert [sep][..0] == "";
      }
      assert Delete(last, sep) == last by {
        DeleteAbsent(last, sep);
      }
      DeleteAppend(j + [sep], last, sep);
    }
  }

  /** A join of separator-free parts contains `c` only if some part does, or `c` is the
      separator itself. */
  lemma {:induction false} JoinAvoids(parts: seq<string>, sep: char, c: char)
    requires c != sep
    requires forall k :: 0 <= k < |parts| ==> c !in parts[k]
    ensures c !in Join(parts, sep)
    decreases |parts|
  {
    if |parts| > 1 {
      JoinAvoids(parts[..|parts| - 1], sep, c);
    }
  }

  /** A non-empty sequence is its front followed by its last element. */
  lemma InitLast<T>(s: seq<T>)
    requires |s| >= 1
    ensures s == s[..|s| - 1] + [s[|s| - 1]]
  {
  }

  /** The fields of `s` between occurrences of `sep`; the inverse of `Join` on
      separator-free parts. */
  function Split(s: string, sep: char): (parts: seq<string>)
    ensures |parts| >= 1
    ensures forall k :: 0 <= k < |parts| ==> sep !in parts[k]
  {
    if s == [] then [""] else Extend(Split(s[..|s| - 1], sep), s[|s| - 1], sep)
  }

  /** The fields so far, after one more character `c`: the separator opens a new field,
      anything else lengthens the last one. */
  function Extend(parts: seq<string>, c: char, sep: char): (r: seq<string>)
    requires |parts| >= 1
    ensures |r| >= |parts|
  {
    if c == sep then parts + [""] else parts[..|parts| - 1] + [parts[|parts| - 1] + [c]]
  }

  /** Extending fields that follow a finished first field leaves that field alone. */
  lemma ExtendBehind(a: string, parts: seq<string>, c: char, sep: char)
    requires |parts| >= 1
    ensures Extend([a] + parts, c, sep) == [a] + Extend(parts, c, sep)
  {
    var n := |parts|;
    assert ([a] + parts)[..n] == [a] + parts[..n - 1];
    assert ([a] + parts)[n] == parts[n - 1];
  }

  /** Separator-free text appended to a string extends its last field. */
  lemma {:induction false} SplitAppendFree(s: string, t: string, sep: char)
    requires sep !in t
    ensures var parts := Split(s, sep);
      Split(s + t, sep) == parts[..|parts| - 1] + [parts[|parts| - 1] + t]
    decreases |t|
  {
    if t == [] {
      var parts := Split(s, sep);
      assert s + t == s;
      assert parts[|parts| - 1] + t == parts[|parts| - 1];
      assert parts[..|parts| - 1] + [parts[|parts| - 1]] == parts;
    } else {
      var t' := t[..|t| - 1];
      assert (s + t)[..|s + t| - 1] == s + t';
      SplitAppendFree(s, t', sep);
      var parts, c := Split(s, sep), t[|t| - 1];
      var p := Split(s + t', sep);
      assert c != sep by {
        assert c == t[|t| - 1];
      }
      assert p[..|p| - 1] == parts[..|parts| - 1];
      assert p[|p| - 1] + [c] == parts[|parts| - 1] + t;
    }
  }

  /** Splitting a join of separator-free parts gives the parts back. */
  lemma {:induction false} SplitJoin(parts: seq<string>, sep: char)
    requires |parts| >= 1
    requires forall k :: 0 <= k < |parts| ==> sep !in parts[k]
    ensures Split(Join(parts, sep), sep) == parts
    decreases |parts|
  {
    if |parts| == 1 {
      SplitAppendFree("", parts[0], sep);
      assert "" + parts[0] == parts[0];
    } else {
      var init, last := parts[..|parts| - 1], parts[|parts| - 1];
      var j := Join(init, sep);
      var s := j + [sep];
      var q := init + [""];
      assert Join(parts, sep) == s + last;
      assert Split(s, sep) == q by {
        assert s[..|s| - 1] == j && s[|s| - 1] == sep;
        SplitJoin(init, sep);
      }
      assert Split(s + last, sep) == init + [last] by {
        SplitAppendFree(s, last, sep);
        assert q[..|q| - 1] == init && q[|q| - 1] + last == last;
      }
      InitLast(parts);
    }
  }

  /** The decimal text of a number contains no separator character. */
  lemma DecimalAvoids(i: int, c: char)
    requires !IsDigit(c) && c != '-'
    ensures c !in IntToDecimal(i)
  {
    var s := IntToDecimal(i);
    if i < 0 {
      assert s == "-" + NatToDecimal(-i);
    }
  }

  /** A separator-free field followed by the separator splits off as the first field. */
  lemma {:induction false} SplitPrefix(a: string, b: string, sep: char)
    requires sep !in a
    ensures Split(a + [sep] + b, sep) == [a] + Split(b, sep)
    decreases |b|
  {
    var s := a + [sep];
    if b == [] {
      assert a + [sep] + b == s;
      assert s[..|s| - 1] == a;
      SplitAppendFree("", a, sep);
      assert "" + a == a;
    } else {
      var b', c := b[..|b| - 1], b[|b| - 1];
      var x := a + [sep] + b;
      assert x[..|x| - 1] == a + [sep] + b' && x[|x| - 1] == c;
      SplitPrefix(a, b', sep);
      ExtendBehind(a, Split(b', sep), c, sep);
    }
  }

  /** Extending fields that follow finished fields leaves those alone. */
  lemma ExtendAfter(done: seq<string>, parts: seq<string>, c: char, sep: char)
    requires |parts| >= 1
    ensures Extend(done + parts, c, sep) == done + Extend(parts, c, sep)
  {
    var n := |done| + |parts|;
    assert (done + parts)[..n - 1] == done + parts[..|parts| - 1];
    assert (done + parts)[n - 1] == parts[|parts| - 1];
  }

  /** Splitting at a separator splits the text before it and the text after it apart. */
  lemma {:induction false} SplitCat(s: string, t: string, sep: char)
    ensures Split(s + [sep] + t, sep) == Split(s, sep) + Split(t, sep)
    decreases |t|
  {
    var x := s + [sep];
    if t == [] {
      assert s + [sep] + t == x && x[..|x| - 1] == s;
    } else {
      var t', c := t[..|t| - 1], t[|t| - 1];
      var y := s + [sep] + t;
      assert y[..|y| - 1] == s + [sep] + t' && y[|y| - 1] == c;
      SplitCat(s, t', sep);
      ExtendAfter(Split(s, sep), Split(t', sep), c, sep);
    }
  }

  /** Text that ends in a separator has an empty last field, and what follows it starts
      the next one. */
  lemma SplitAfterBreak(x: string, y: string, sep: char)
    requires |x| > 0 && x[|x| - 1] == sep
    ensures var parts := Split(x, sep);
      parts[|parts| - 1] == "" && Split(x + y, sep) == parts[..|parts| - 1] + Split(y, sep)
  {
    var x' := x[..|x| - 1];
    assert x == x' + [sep];
    assert x + y == x' + [sep] + y;
    SplitCat(x', y, sep);
    SplitCat(x', "", sep);
    assert x' + [sep] + "" == x;
  }

  /** A three-field join, regrouped from the right. */
  lemma JoinThree(a: string, b: string, c: string, sep: char, end: string)
    ensures Join([a, b, c], sep) + end == a + [sep] + (b + [sep] + (c + end))
  {
    assert [a, b, c][..2] == [a, b];
    assert [a, b][..1] == [a];
    assert Join([a, b], sep) == a + [sep] + b;
    assert Join([a, b, c], sep) == a + [sep] + b + [sep] + c;
  }

  /** A three-field join whose first two fields hold no separator splits into those two
      fields followed by the fields of the third. */
  lemma SplitThree(a: string, b: string, c: string, sep: char, end: string)
    requires sep !in a && sep !in b
    ensures Split(Join([a, b, c], sep) + end, sep) == [a, b] + Split(c + end, sep)
  {
    JoinThree(a, b, c, sep, end);
    SplitPrefix(b, c + end, sep);
    SplitPrefix(a, b + [sep] + (c + end), sep);
    assert [a] + ([b] + Split(c + end, sep)) == [a, b] + Split(c + end, sep);
  }

  /** A separator line followed by a cycle line opens with the separator, a line break,
      `Cycle:`, the cycle and a tab. */
  lemma CycleOpens(separator: string, c: string, p: string, a: string)
    ensures var head := separator + "\nCycle:" + c + "\t";
      var top := separator + "\n" + ("Cycle:" + c + "\t" + p + "\t" + a + "\n\n");
      |head| <= |top| && top[..|head|] == head
  {
    var rest := p + "\t" + a + "\n\n";
    assert "Cycle:" + c + "\t" + p + "\t" + a + "\n\n" == "Cycle:" + c + "\t" + rest;
    assert separator + "\n" + ("Cycle:" + c + "\t" + rest) == separator + "\nCycle:" + c + "\t" + rest;
  }

  /** A text that opens with `head` and goes on with `a`, `d` and `r` still opens with
      `head`, and closes with `d` and `r`. */
  lemma Bookends(head: string, top: string, a: string, d: string, r: string)
    requires |head| <= |top| && top[..|head|] == head
    ensures var s := top + a + d + r;
      && |head| <= |s| && s[..|head|] == head
      && |d + r| <= |s| && s[|s| - |d + r|..] == d + r
  {
    assert (top + a + d + r)[..|top|] == top;
  }
}
