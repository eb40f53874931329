/**
 Extracted rows, the dedup key, first-seen deduplication and the final
 `Sl No` numbering of `popup.js`.

 Deduplication is written once, as the `forEach` loop with a `seen` set
 (`DedupRows`), and once as a recursive function over the remaining rows and
 the keys seen so far (`DedupFrom`); a third, declarative definition
 (`FirstOccurrences`) keeps exactly the rows whose key does not occur
 earlier. The lemmas tie the three together.
 */
module Rows {
  import opened Sequences

  /** One question as the in-page extractor returns it. */
  datatype Row = Row(position: string, category: string, question: string, date: string)

  /** A row of the final export, carrying its 1-based `Sl No`. */
  datatype NumberedRow = NumberedRow(slNo: int, position: string, category: string, question: string, date: string)
  {
    /** The row without its number. */
    function Unnumbered(): Row {
      Row(position, category, question, date)
    }
  }

  /** `toLowerCase` on one character, restricted to ASCII letters. */
  function LowerChar(c: char): char {
    if 'A' <= c <= 'Z' then (c as int + 32) as char else c
  }

  /** `toLowerCase` on a string, one character at a time. */
  function LowerAscii(s: string): string {
    seq(|s|, i requires 0 <= i < |s| => LowerChar(s[i]))
  }

  /** The dedup key: `${Question}|${Position}|${Category}`, lower-cased.
      Lower-casing the joined string is joining the lower-cased fields, so
      the date never takes part and only the letter case of the three
      fields is forgotten. */
  function Key(row: Row): (k: string)
    ensures k == LowerAscii(row.question) + "|" + LowerAscii(row.position) + "|" + LowerAscii(row.category)
  {
    LowerAsciiAppend(row.question + "|" + row.position, "|" + row.category);
    LowerAsciiAppend(row.question + "|", row.position);
    LowerAsciiAppend(row.question, "|");
    LowerAsciiAppend("|", row.category);
    LowerAscii(row.question + "|" + row.position + "|" + row.category)
  }

  /** The keys of a list of rows. */
  function KeySet(rows: seq<Row>): set<string> {
    set r | r in rows :: Key(r)
  }

  /** No two rows share a key. */
  predicate KeysUnique(rows: seq<Row>) {
    forall i, j :: 0 <= i < j < |rows| ==> Key(rows[i]) != Key(rows[j])
  }

  /** The loop body of the dedup `forEach`, run over `rows` with the keys in
      `seen` already taken: a row is kept when its key is new, and its key is
      then taken. The result never repeats a key, holds exactly the keys of
      `rows` not in `seen`, and keeps the input's order. */
  function DedupFrom(rows: seq<Row>, seen: set<string>): (unique: seq<Row>)
    ensures KeysUnique(unique)
    ensures KeySet(unique) == KeySet(rows) - seen
    ensures Subsequence(unique, rows)
    decreases |rows|
  {
    if |rows| == 0 then []
    else
      KeySetCons(rows);
      if Key(rows[0]) in seen then DedupFrom(rows[1..], seen)
      else
        var rest := DedupFrom(rows[1..], seen + {Key(rows[0])});
        ConsUnique(rows[0], rest);
        KeySetCons([rows[0]] + rest);
        assert ([rows[0]] + rest)[1..] == rest;
        [rows[0]] + rest
  }

  /** Deduplication starting from an empty `seen` set. */
  function Dedup(rows: seq<Row>): seq<Row> {
    DedupFrom(rows, {})
  }

  /** The dedup loop as written: `unique` and `seen` start empty, and each
      row whose key is not yet in `seen` is appended and its key added. */
  method DedupRows(rows: seq<Row>) returns (unique: seq<Row>)
    ensures unique == Dedup(rows)
    ensures KeysUnique(unique) && KeySet(unique) == KeySet(rows)
  {
    unique := [];
    var seen: set<string> := {};
    var i := 0;
    while i < |rows|
      invariant 0 <= i <= |rows|
      invariant unique + DedupFrom(rows[i..], seen) == Dedup(rows)
    {
      var key := Key(rows[i]);
      assert rows[i..][1..] == rows[i + 1..];
      if key !in seen {
        seen := seen + {key};
        unique := unique + [rows[i]];
      }
      i := i + 1;
    }
  }

  /** Row `i` is the first row carrying its key. */
  predicate FirstOccurrence(rows: seq<Row>, i: int)
    requires 0 <= i < |rows|
  {
    forall j :: 0 <= j < i ==> Key(rows[j]) != Key(rows[i])
  }

  /** The declarative reading of deduplication: the rows that are the first
      occurrence of their key, in input order. */
  function FirstOccurrences(rows: seq<Row>): seq<Row>
    decreases |rows|
  {
    if |rows| == 0 then []
    else
      var n := |rows| - 1;
      FirstOccurrences(rows[..n]) + (if FirstOccurrence(rows, n) then [rows[n]] else [])
  }

  /** Numbering from `first`: the i-th row gets `Sl No` = `first` + i and its
      fields unchanged. */
  function NumberFrom(rows: seq<Row>, first: int): (numbered: seq<NumberedRow>)
    ensures |numbered| == |rows|
    ensures forall i :: 0 <= i < |numbered| ==> numbered[i].slNo == first + i
    decreases |rows|
  {
    if |rows| == 0 then []
    else
      var r := rows[0];
      [NumberedRow(first, r.position, r.category, r.question, r.date)] + NumberFrom(rows[1..], first + 1)
  }

  /** `deduped.map((row, index) => ({ ...row, "Sl No": index + 1 }))`. */
  function Number(rows: seq<Row>): seq<NumberedRow> {
    NumberFrom(rows, 1)
  }

  function Unnumber(numbered: seq<NumberedRow>): seq<Row> {
    seq(|numbered|, i requires 0 <= i < |numbered| => numbered[i].Unnumbered())
  }

  // ---------------------------------------------------------------------
  // Lemmas.

  lemma KeySetCons(rows: seq<Row>)
    requires |rows| > 0
    ensures KeySet(rows) == {Key(rows[0])} + KeySet(rows[1..])
  {
    assert forall r :: r in rows <==> r == rows[0] || r in rows[1..];
  }

  lemma ConsUnique(x: Row, rows: seq<Row>)
    requires KeysUnique(rows) && Key(x) !in KeySet(rows)
    ensures KeysUnique([x] + rows)
  {
    forall i, j | 0 <= i < j < |[x] + rows|
      ensures Key(([x] + rows)[i]) != Key(([x] + rows)[j])
    {
      if i == 0 {
        KeySetMember(rows, j - 1);
      }
    }
  }

  lemma KeySetAppend(a: seq<Row>, b: seq<Row>)
    ensures KeySet(a + b) == KeySet(a) + KeySet(b)
  {
    assert forall r :: r in a + b <==> r in a || r in b;
  }

  lemma KeySetMember(rows: seq<Row>, i: int)
    requires 0 <= i < |rows|
    ensures Key(rows[i]) in KeySet(rows)
  {
    assert rows[i] in rows;
  }

  /** Deduplication splits at any cut: the second part is deduplicated
      against everything the first part contributed. */
  lemma {:induction false} DedupAppend(a: seq<Row>, b: seq<Row>, seen: set<string>)
    ensures DedupFrom(a + b, seen) == DedupFrom(a, seen) + DedupFrom(b, seen + KeySet(a))
    decreases |a|
  {
    if |a| == 0 {
      assert a + b == b;
      assert KeySet(a) == {};
      assert seen + KeySet(a) == seen;
    } else {
      var k := Key(a[0]);
      assert (a + b)[0] == a[0];
      assert (a + b)[1..] == a[1..] + b;
      KeySetAppend([a[0]], a[1..]);
      assert a == [a[0]] + a[1..];
      assert KeySet([a[0]]) == {k};
      if k in seen {
        DedupAppend(a[1..], b, seen);
        assert seen + KeySet(a) == seen + KeySet(a[1..]);
      } else {
        DedupAppend(a[1..], b, seen + {k});
        assert seen + {k} + KeySet(a[1..]) == seen + KeySet(a);
      }
    }
  }

  /** Deduplicating against more keys absorbs an earlier deduplication
      against fewer. */
  lemma {:induction false} DedupAbsorbs(rows: seq<Row>, inner: set<string>, outer: set<string>)
    requires inner <= outer
    ensures DedupFrom(DedupFrom(rows, inner), outer) == DedupFrom(rows, outer)
    decreases |rows|
  {
    if |rows| > 0 {
      var k := Key(rows[0]);
      if k in inner {
        DedupAbsorbs(rows[1..], inner, outer);
      } else {
        var d := DedupFrom(rows[1..], inner + {k});
        assert DedupFrom(rows, inner) == [rows[0]] + d;
        assert ([rows[0]] + d)[1..] == d;
        if k in outer {
          DedupAbsorbs(rows[1..], inner + {k}, outer);
        } else {
          DedupAbsorbs(rows[1..], inner + {k}, outer + {k});
        }
      }
    }
  }

  /** Deduplication is idempotent. */
  lemma DedupIdempotent(rows: seq<Row>)
    ensures Dedup(Dedup(rows)) == Dedup(rows)
  {
    DedupAbsorbs(rows, {}, {});
  }

  /** Deduplication leaves a list alone exactly when no key repeats in it. */
  lemma {:induction false} DedupFixedPoints(rows: seq<Row>)
    ensures Dedup(rows) == rows <==> KeysUnique(rows)
  {
    if KeysUnique(rows) {
      DedupKeepsUnique(rows, {});
    }
  }

  lemma {:induction false} DedupKeepsUnique(rows: seq<Row>, seen: set<string>)
    requires KeysUnique(rows)
    requires KeySet(rows) !! seen
    ensures DedupFrom(rows, seen) == rows
    decreases |rows|
  {
    if |rows| > 0 {
      var k := Key(rows[0]);
      KeySetMember(rows, 0);
      var rest := rows[1..];
      assert KeysUnique(rest) by {
        forall i, j | 0 <= i < j < |rest|
          ensures Key(rest[i]) != Key(rest[j])
        {
          assert rest[i] == rows[i + 1] && rest[j] == rows[j + 1];
        }
      }
      KeySetAppend([rows[0]], rest);
      assert rows == [rows[0]] + rest;
      DedupKeepsUnique(rest, seen + {k});
    }
  }

  /** Deduplicating each page and then the concatenation gives what
      deduplicating the concatenation alone gives: the per-page pass never
      changes the final result. */
  lemma PageDedupRedundant(a: seq<Row>, b: seq<Row>, seen: set<string>)
    ensures DedupFrom(Dedup(a) + b, seen) == DedupFrom(a + b, seen)
  {
    DedupAppend(Dedup(a), b, seen);
    DedupAppend(a, b, seen);
    DedupAbsorbs(a, {}, seen);
    assert KeySet(Dedup(a)) == KeySet(a);
  }

  /** The stream-with-a-seen-set definition agrees with the declarative one:
      the kept rows are exactly the first occurrences of their keys. */
  lemma {:induction false} DedupKeepsFirstOccurrences(rows: seq<Row>)
    ensures Dedup(rows) == FirstOccurrences(rows)
    decreases |rows|
  {
    if |rows| > 0 {
      var n := |rows| - 1;
      var init, x := rows[..n], rows[n];
      assert rows == init + [x];
      DedupKeepsFirstOccurrences(init);
      DedupAppend(init, [x], {});
      assert {} + KeySet(init) == KeySet(init);
      FirstOccurrenceIsNewKey(rows);
      assert DedupFrom([x], KeySet(init)) == (if FirstOccurrence(rows, n) then [x] else []) by {
        assert [x][1..] == [];
      }
    }
  }

  /** The last row is the first occurrence of its key exactly when its key
      is not among the keys before it. */
  lemma FirstOccurrenceIsNewKey(rows: seq<Row>)
    requires |rows| > 0
    ensures FirstOccurrence(rows, |rows| - 1) <==> Key(rows[|rows| - 1]) !in KeySet(rows[..|rows| - 1])
  {
    var n := |rows| - 1;
    var init, x := rows[..n], rows[n];
    if Key(x) in KeySet(init) {
      var r :| r in init && Key(r) == Key(x);
      var j :| 0 <= j < n && init[j] == r;
      assert rows[j] == r;
    } else {
      forall j | 0 <= j < n
        ensures Key(rows[j]) != Key(x)
      {
        assert rows[j] == init[j];
        KeySetMember(init, j);
      }
    }
  }

  /** Numbering hands out 1..N in order, and removing the numbers gives the
      rows back unchanged. */
  lemma {:induction false} NumberingRoundTrip(rows: seq<Row>, first: int)
    ensures Unnumber(NumberFrom(rows, first)) == rows
    decreases |rows|
  {
    if |rows| > 0 {
      NumberingRoundTrip(rows[1..], first + 1);
      var u := Unnumber(NumberFrom(rows, first));
      forall i | 0 <= i < |rows|
        ensures u[i] == rows[i]
      {
        if i > 0 {
          assert u[i] == Unnumber(NumberFrom(rows[1..], first + 1))[i - 1];
        }
      }
    }
  }

  /** The numbers of the export are strictly increasing and run from 1 to
      the number of rows. */
  lemma NumbersIncrease(rows: seq<Row>)
    ensures forall i, j :: 0 <= i < j < |Number(rows)| ==> Number(rows)[i].slNo < Number(rows)[j].slNo
    ensures |Number(rows)| > 0 ==> Number(rows)[0].slNo == 1 && Number(rows)[|rows| - 1].slNo == |rows|
  {
  }

  lemma {:induction false} LowerAsciiAppend(a: string, b: string)
    ensures LowerAscii(a + b) == LowerAscii(a) + LowerAscii(b)
  {
    var l := LowerAscii(a + b);
    var r := LowerAscii(a) + LowerAscii(b);
    assert |l| == |r|;
    forall i | 0 <= i < |l|
      ensures l[i] == r[i]
    {
      if i < |a| {
        assert (a + b)[i] == a[i];
      } else {
        assert (a + b)[i] == b[i - |a|];
      }
    }
  }

  /** Rows whose question, position and category agree up to the case of
      ASCII letters share a key, whatever their dates. */
  lemma KeyIgnoresCase(a: Row, b: Row)
    requires LowerAscii(a.question) == LowerAscii(b.question)
    requires LowerAscii(a.position) == LowerAscii(b.position)
    requires LowerAscii(a.category) == LowerAscii(b.category)
    ensures Key(a) == Key(b)
  {
  }

  /** Of two rows that differ only in letter case and date, the later one is
      dropped. */
  lemma CaseInsensitiveMerge()
    ensures Dedup([Row("SDE", "DSA", "Two Sum", "Jan"), Row("sde", "dsa", "two sum", "Feb")])
         == [Row("SDE", "DSA", "Two Sum", "Jan")]
  {
    var a, b := Row("SDE", "DSA", "Two Sum", "Jan"), Row("sde", "dsa", "two sum", "Feb");
    CaseFolds();
    KeyIgnoresCase(a, b);
    assert [a, b][1..] == [b];
    assert [b][1..] == [];
  }

  lemma CaseFolds()
    ensures LowerAscii("SDE") == LowerAscii("sde")
    ensures LowerAscii("DSA") == LowerAscii("dsa")
    ensures LowerAscii("Two Sum") == LowerAscii("two sum")
  {
  }

  /** The key joins the fields with a bare `|`, so two different rows whose
      fields shift a `|` between the question and the position share a key,
      and the later one is dropped. */
  lemma SeparatorCollision()
    ensures Dedup([Row("B", "C", "A|X", ""), Row("X|B", "C", "A", "")]) == [Row("B", "C", "A|X", "")]
  {
    var a, b := Row("B", "C", "A|X", ""), Row("X|B", "C", "A", "");
    assert Key(a) == Key(b) == "a|x|b|c";
    assert [a, b][1..] == [b];
  }
}
