/** `write_header`: the layout of the generated glyph tables. Each letter becomes one flat
  * table of coordinate pairs in which a `{NAN, NAN}` pair separates polylines. */
module Header {
  import opened Common

  /** One row of a glyph table: a coordinate pair, or the `{NAN, NAN}` pen-up separator. */
  datatype Entry = Pt(x: real, y: real) | Break

  /** The rows of one polyline. */
  function Pts(poly: seq<Point>): (r: seq<Entry>)
    ensures |r| == |poly|
    ensures forall i :: 0 <= i < |r| ==> r[i] == Pt(poly[i].x, poly[i].y)
    ensures Break !in r
  {
    seq(|poly|, i requires 0 <= i < |poly| => Pt(poly[i].x, poly[i].y))
  }

  /** The rows of one letter: its polylines in order, a separator between each two. */
  function Join(polys: seq<seq<Point>>): (r: seq<Entry>)
    ensures polys != [] && polys[0] != [] ==> r != [] && r[0] == Pt(polys[0][0].x, polys[0][0].y)
  {
    if polys == [] then []
    else if |polys| == 1 then Pts(polys[0])
    else Pts(polys[0]) + [Break] + Join(polys[1..])
  }

  /** `seps`: one fewer than the polylines, and none for zero or one polyline. */
  function Separators(n: int): int {
    if n > 1 then n - 1 else 0
  }

  /** The number of points of all polylines. */
  function PointCount(polys: seq<seq<Point>>): nat {
    if polys == [] then 0 else |polys[0]| + PointCount(polys[1..])
  }

  /** The number of separators among some rows. */
  function BreakCount(es: seq<Entry>): nat {
    if es == [] then 0 else (if es[0] == Break then 1 else 0) + BreakCount(es[1..])
  }

  lemma {:induction false} BreakCountAppend(a: seq<Entry>, b: seq<Entry>)
    ensures BreakCount(a + b) == BreakCount(a) + BreakCount(b)
  {
    if a == [] {
      assert a + b == b;
    } else {
      assert (a + b)[0] == a[0];
      assert (a + b)[1..] == a[1..] + b;
      BreakCountAppend(a[1..], b);
    }
  }

  lemma {:induction false} NoBreakInPts(poly: seq<Point>)
    ensures BreakCount(Pts(poly)) == 0
  {
    if poly != [] {
      assert Pts(poly)[1..] == Pts(poly[1..]);
      NoBreakInPts(poly[1..]);
    }
  }

  /** A letter's table holds its points plus `seps` rows, and exactly `seps` of its rows
    * are separators. */
  lemma {:induction false} JoinCounts(polys: seq<seq<Point>>)
    ensures |Join(polys)| == PointCount(polys) + Separators(|polys|)
    ensures BreakCount(Join(polys)) == Separators(|polys|)
  {
    if polys != [] {
      NoBreakInPts(polys[0]);
      if |polys| == 1 {
        assert PointCount(polys) == |polys[0]| + PointCount([]);
      } else {
        JoinCounts(polys[1..]);
        BreakCountAppend(Pts(polys[0]), [Break]);
        BreakCountAppend(Pts(polys[0]) + [Break], Join(polys[1..]));
      }
    }
  }

  /** A table ends with the last point of the last polyline when it has one. */
  lemma {:induction false} JoinLast(polys: seq<seq<Point>>)
    requires polys != [] && polys[|polys| - 1] != []
    ensures var last := polys[|polys| - 1];
      Join(polys) != [] && Join(polys)[|Join(polys)| - 1] == Pt(last[|last| - 1].x, last[|last| - 1].y)
  {
    if |polys| > 1 {
      JoinLast(polys[1..]);
    }
  }

  /** Appending a polyline appends a separator and its points. */
  lemma {:induction false} JoinSnoc(polys: seq<seq<Point>>, p: seq<Point>)
    requires polys != []
    ensures Join(polys + [p]) == Join(polys) + [Break] + Pts(p)
  {
    var ps := polys + [p];
    assert ps[0] == polys[0];
    if |polys| == 1 {
      assert ps[1..] == [p];
      assert Join(ps[1..]) == Pts(p);
    } else {
      assert ps[1..] == polys[1..] + [p];
      JoinSnoc(polys[1..], p);
      calc {
        Join(ps);
        Pts(polys[0]) + [Break] + Join(polys[1..] + [p]);
        Pts(polys[0]) + [Break] + (Join(polys[1..]) + [Break] + Pts(p));
        (Pts(polys[0]) + [Break] + Join(polys[1..])) + [Break] + Pts(p);
      }
    }
  }

  /** How a reader of the table recovers polylines: a new polyline at every separator. */
  function SplitAtBreaks(es: seq<Entry>): (r: seq<seq<Point>>)
    ensures r != []
  {
    if es == [] then [[]]
    else
      var rest := SplitAtBreaks(es[1..]);
      match es[0]
      case Break => [[]] + rest
      case Pt(x, y) => [[Point(x, y)] + rest[0]] + rest[1..]
  }

  lemma {:induction false} SplitPts(p: seq<Point>, es: seq<Entry>)
    ensures SplitAtBreaks(Pts(p) + es) == [p + SplitAtBreaks(es)[0]] + SplitAtBreaks(es)[1..]
  {
    var s := SplitAtBreaks(es);
    if p == [] {
      assert Pts(p) + es == es;
      assert p + s[0] == s[0];
      assert [s[0]] + s[1..] == s;
    } else {
      var e := Pts(p) + es;
      assert e[0] == Pt(p[0].x, p[0].y);
      assert e[1..] == Pts(p[1..]) + es;
      SplitPts(p[1..], es);
      assert SplitAtBreaks(e[1..]) == [p[1..] + s[0]] + s[1..];
      assert [Point(p[0].x, p[0].y)] + (p[1..] + s[0]) == p + s[0];
    }
  }

  /** Splitting a table at its separators gives back the letter's polylines. */
  lemma {:induction false} SplitJoin(polys: seq<seq<Point>>)
    requires polys != []
    ensures SplitAtBreaks(Join(polys)) == polys
  {
    if |polys| == 1 {
      SplitPts(polys[0], []);
      assert Pts(polys[0]) + [] == Pts(polys[0]);
      assert SplitAtBreaks([]) == [[]];
      assert polys[0] + [] == polys[0];
      assert Join(polys) == Pts(polys[0]);
    } else {
      SplitJoin(polys[1..]);
      var tail := [Break] + Join(polys[1..]);
      assert tail[1..] == Join(polys[1..]);
      assert SplitAtBreaks(tail) == [[]] + polys[1..];
      SplitPts(polys[0], tail);
      assert Join(polys) == Pts(polys[0]) + tail;
      assert polys[0] + [] == polys[0];
      assert [polys[0]] + polys[1..] == polys;
    }
  }

  /** Every table is the layout of the polylines split out of it. */
  lemma {:induction false} JoinSplit(es: seq<Entry>)
    ensures Join(SplitAtBreaks(es)) == es
  {
    if es != [] {
      var rest := SplitAtBreaks(es[1..]);
      JoinSplit(es[1..]);
      match es[0]
      case Break =>
        assert Join([[]] + rest) == Pts([]) + [Break] + Join(rest);
      case Pt(x, y) =>
        var first := [Point(x, y)] + rest[0];
        assert Pts(first) == [Pt(x, y)] + Pts(rest[0]);
        if |rest| == 1 {
          assert Join(rest) == Pts(rest[0]);
        } else {
          assert Join(rest) == Pts(rest[0]) + [Break] + Join(rest[1..]);
          assert ([first] + rest[1..])[1..] == rest[1..];
        }
    }
  }

  /** The smallest key. */
  function Least(s: set<char>): (m: char)
    requires s != {}
    ensures m in s && forall c :: c in s ==> m <= c
  {
    LeastExists(s);
    var m :| m in s && forall c :: c in s ==> m <= c;
    m
  }

  lemma LeastExists(s: set<char>)
    requires s != {}
    ensures exists m :: m in s && forall c :: c in s ==> m <= c
    decreases s
  {
    var x :| x in s;
    if s != {x} {
      LeastExists(s - {x});
      var y :| y in s - {x} && forall c :: c in s - {x} ==> y <= c;
      var m := if x < y then x else y;
      forall c | c in s ensures m <= c {
        if c != x {
          assert c in s - {x};
        }
      }
    }
  }

  /** Putting the least key before the ascending rest keeps the keys ascending and complete. */
  lemma SortedCons(m: char, s: set<char>, rest: seq<char>)
    requires m in s && forall c :: c in s ==> m <= c
    requires |rest| == |s - {m}|
    requires forall i :: 0 <= i < |rest| ==> rest[i] in s - {m}
    requires forall c :: c in s - {m} ==> c in rest
    requires forall i, j :: 0 <= i < j < |rest| ==> rest[i] < rest[j]
    ensures var r := [m] + rest;
      && |r| == |s|
      && (forall i :: 0 <= i < |r| ==> r[i] in s)
      && (forall c :: c in s ==> c in r)
      && (forall i, j :: 0 <= i < j < |r| ==> r[i] < r[j])
  {
    var r := [m] + rest;
    forall i, j | 0 <= i < j < |r| ensures r[i] < r[j] {
      if i == 0 {
        assert rest[j - 1] in s - {m};
      }
    }
    forall c | c in s ensures c in r {
      if c != m {
        assert c in s - {m};
      }
    }
  }

  /** The keys in ascending order: `sorted(per_letter.keys())`. */
  function SortedKeys(s: set<char>): (r: seq<char>)
    ensures |r| == |s|
    ensures forall i :: 0 <= i < |r| ==> r[i] in s
    ensures forall c :: c in s ==> c in r
    ensures forall i, j :: 0 <= i < j < |r| ==> r[i] < r[j]
    decreases s
  {
    if s == {} then []
    else
      var m := Least(s);
      var rest := SortedKeys(s - {m});
      SortedCons(m, s, rest);
      [m] + rest
  }

  /** The table and `_len` constant emitted for one letter. */
  datatype LetterTable = LetterTable(letter: char, entries: seq<Entry>, len: int)

  /** What `write_header` emits: the tables in order, `LETTERS_PRESENT`, and the printed
    * total of points plus separators. */
  datatype HeaderOut = HeaderOut(tables: seq<LetterTable>, lettersPresent: seq<char>, total: int)

  /** The sum of the `_len` constants. */
  function SumLens(tables: seq<LetterTable>): int {
    if tables == [] then 0 else SumLens(tables[..|tables| - 1]) + tables[|tables| - 1].len
  }

  /** The body of `write_header` for one letter: the rows written for its polylines,
    * a separator before every polyline but the first, and `count`, the points written. */
  method LetterRows(polys: seq<seq<Point>>) returns (entries: seq<Entry>, count: int)
    ensures entries == Join(polys)
    ensures count == PointCount(polys)
  {
    entries := [];
    var first := true;
    count := 0;
    for j := 0 to |polys|
      invariant first <==> j == 0
      invariant entries == Join(polys[..j])
      invariant count == PointCount(polys[..j])
    {
      ghost var before := entries;
      if !first {
        entries := entries + [Break];
      }
      first := false;
      var poly := polys[j];
      for m := 0 to |poly|
        invariant entries == (if j == 0 then [] else before + [Break]) + Pts(poly[..m])
        invariant count == PointCount(polys[..j]) + m
      {
        assert Pts(poly[..m + 1]) == Pts(poly[..m]) + [Pt(poly[m].x, poly[m].y)];
        entries := entries + [Pt(poly[m].x, poly[m].y)];
        count := count + 1;
      }
      assert poly[..|poly|] == poly;
      assert polys[..j + 1] == polys[..j] + [poly];
      if j == 0 {
        assert Join(polys[..1]) == Pts(poly);
      } else {
        JoinSnoc(polys[..j], poly);
      }
      PointCountSnoc(polys[..j], poly);
    }
    assert polys[..|polys|] == polys;
  }

  /** The table and `_len` constant of one letter, as `write_header` computes them. */
  function Table(letter: char, polys: seq<seq<Point>>): LetterTable {
    LetterTable(letter, Join(polys), PointCount(polys) + Separators(|polys|))
  }

  /** A letter's `_len` is the number of rows of its table, and its table holds
    * `seps` separators. */
  lemma TableLen(letter: char, polys: seq<seq<Point>>)
    ensures var t := Table(letter, polys);
      t.len == |t.entries| && BreakCount(t.entries) == Separators(|polys|)
  {
    JoinCounts(polys);
  }

  /** The tables of the given letters, in the order given. */
  function Tables(keys: seq<char>, perLetter: map<char, seq<seq<Point>>>): (ts: seq<LetterTable>)
    requires forall i :: 0 <= i < |keys| ==> keys[i] in perLetter
    ensures |ts| == |keys|
  {
    if keys == [] then []
    else Tables(keys[..|keys| - 1], perLetter) + [Table(keys[|keys| - 1], perLetter[keys[|keys| - 1]])]
  }

  lemma {:induction false} TablesAt(keys: seq<char>, perLetter: map<char, seq<seq<Point>>>, i: int)
    requires forall i :: 0 <= i < |keys| ==> keys[i] in perLetter
    requires 0 <= i < |keys|
    ensures Tables(keys, perLetter)[i] == Table(keys[i], perLetter[keys[i]])
  {
    if i < |keys| - 1 {
      TablesAt(keys[..|keys| - 1], perLetter, i);
    }
  }

  /** Table `i` is the table of letter `i`, and its `_len` counts its rows. */
  lemma TablesMeaning(keys: seq<char>, perLetter: map<char, seq<seq<Point>>>)
    requires forall i :: 0 <= i < |keys| ==> keys[i] in perLetter
    ensures forall i :: 0 <= i < |keys| ==>
      var t := Tables(keys, perLetter)[i];
      && t == Table(keys[i], perLetter[keys[i]])
      && t.len == |t.entries|
      && BreakCount(t.entries) == Separators(|perLetter[keys[i]]|)
  {
    forall i | 0 <= i < |keys|
      ensures Tables(keys, perLetter)[i] == Table(keys[i], perLetter[keys[i]])
      ensures Tables(keys, perLetter)[i].len == |Tables(keys, perLetter)[i].entries|
      ensures BreakCount(Tables(keys, perLetter)[i].entries) == Separators(|perLetter[keys[i]]|)
    {
      TablesAt(keys, perLetter, i);
      TableLen(keys[i], perLetter[keys[i]]);
    }
  }

  lemma TablesStep(keys: seq<char>, perLetter: map<char, seq<seq<Point>>>, k: int)
    requires forall i :: 0 <= i < |keys| ==> keys[i] in perLetter
    requires 0 <= k < |keys|
    ensures Tables(keys[..k + 1], perLetter)
      == Tables(keys[..k], perLetter) + [Table(keys[k], perLetter[keys[k]])]
  {
    var next := keys[..k + 1];
    assert next[..k] == keys[..k] && next[k] == keys[k];
  }

  lemma SumLensSnoc(tables: seq<LetterTable>, t: LetterTable)
    ensures SumLens(tables + [t]) == SumLens(tables) + t.len
  {
    assert (tables + [t])[..|tables|] == tables;
  }

  /** The per-letter loop of the header writer: one table per key, in the order given,
    * and the running total of emitted rows. */
  method EmitTables(keys: seq<char>, perLetter: map<char, seq<seq<Point>>>)
    returns (tables: seq<LetterTable>, total: int)
    requires forall i :: 0 <= i < |keys| ==> keys[i] in perLetter
    ensures tables == Tables(keys, perLetter)
    ensures total == SumLens(tables)
  {
    tables := [];
    total := 0;
    for k := 0 to |keys|
      invariant tables == Tables(keys[..k], perLetter)
      invariant total == SumLens(tables)
    {
      var polys := perLetter[keys[k]];
      var entries, count := LetterRows(polys);
      var seps := if |polys| > 1 then |polys| - 1 else 0;
      var t := LetterTable(keys[k], entries, count + seps);
      assert t == Table(keys[k], polys);
      TablesStep(keys, perLetter, k);
      SumLensSnoc(tables, t);
      tables := tables + [t];
      total := total + count + seps;
    }
    assert keys[..|keys|] == keys;
  }

  /** `write_header`, without the text formatting: one table per letter in ascending key
    * order, each the letter's polylines with a separator between each two, and a `_len`
    * that counts exactly the rows of its table. */
  method WriteHeader(perLetter: map<char, seq<seq<Point>>>) returns (h: HeaderOut)
    ensures h.lettersPresent == SortedKeys(perLetter.Keys)
    ensures |h.tables| == |h.lettersPresent| == |perLetter.Keys|
    ensures forall i :: 0 <= i < |h.tables| ==>
      h.tables[i] == Table(h.lettersPresent[i], perLetter[h.lettersPresent[i]])
    ensures forall i :: 0 <= i < |h.tables| ==>
      h.tables[i].len == |h.tables[i].entries|
      && BreakCount(h.tables[i].entries) == Separators(|perLetter[h.lettersPresent[i]]|)
    ensures h.total == SumLens(h.tables)
  {
    var keys := SortedKeys(perLetter.Keys);
    var tables, total := EmitTables(keys, perLetter);
    TablesMeaning(keys, perLetter);
    h := HeaderOut(tables, keys, total);
  }

  lemma {:induction false} PointCountSnoc(polys: seq<seq<Point>>, p: seq<Point>)
    ensures PointCount(polys + [p]) == PointCount(polys) + |p|
  {
    if polys != [] {
      assert (polys + [p])[1..] == polys[1..] + [p];
      PointCountSnoc(polys[1..], p);
    }
  }
}
