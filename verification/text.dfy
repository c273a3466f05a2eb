/** String operations the harvester relies on: the natural order of strings
    (the order of a sorted string set), prefix tests, and splitting a line on a
    one-character delimiter the way `String.split` does. */
module Text {

  /** `a` sorts strictly before `b`: the first differing character decides,
      and a proper prefix sorts before the longer string. */
  predicate Less(a: string, b: string)
    decreases |a|
  {
    if |a| == 0 then |b| > 0
    else |b| > 0 && (a[0] < b[0] || (a[0] == b[0] && Less(a[1..], b[1..])))
  }

  lemma {:induction false} LessIrreflexive(a: string)
    ensures !Less(a, a)
    decreases |a|
  {
    if |a| > 0 {
      LessIrreflexive(a[1..]);
    }
  }

  lemma {:induction false} LessAsymmetric(a: string, b: string)
    requires Less(a, b)
    ensures !Less(b, a)
    decreases |a|
  {
    if |a| > 0 && a[0] == b[0] {
      LessAsymmetric(a[1..], b[1..]);
    }
  }

  lemma {:induction false} LessTransitive(a: string, b: string, c: string)
    requires Less(a, b) && Less(b, c)
    ensures Less(a, c)
    decreases |a|
  {
    if |a| > 0 && a[0] == b[0] && b[0] == c[0] {
      LessTransitive(a[1..], b[1..], c[1..]);
    }
  }

  /** Any two different strings are ordered one way or the other. */
  lemma {:induction false} LessTotal(a: string, b: string)
    requires a != b
    ensures Less(a, b) || Less(b, a)
    decreases |a|
  {
    if |a| > 0 && |b| > 0 && a[0] == b[0] {
      assert a == [a[0]] + a[1..];
      assert b == [b[0]] + b[1..];
      LessTotal(a[1..], b[1..]);
    }
  }

  /** `s` begins with `prefix`. */
  predicate StartsWith(s: string, prefix: string) {
    |prefix| <= |s| && s[..|prefix|] == prefix
  }

  /** Position of the first `d` in `s`. */
  function IndexOf(s: string, d: char): (i: nat)
    requires d in s
    ensures i < |s| && s[i] == d && d !in s[..i]
  {
    if s[0] == d then 0
    else
      var j := IndexOf(s[1..], d);
      assert s[..j + 1] == [s[0]] + s[1..][..j];
      j + 1
  }

  /** The pieces of `s` between occurrences of `d`, empty pieces included. */
  function Split(s: string, d: char): (fields: seq<string>)
    ensures |fields| >= 1
    ensures forall i :: 0 <= i < |fields| ==> d !in fields[i]
    decreases |s|
  {
    if d !in s then [s]
    else
      var i := IndexOf(s, d);
      [s[..i]] + Split(s[i + 1..], d)
  }

  /** The pieces glued back together with `d` between neighbours. */
  function Join(fields: seq<string>, d: char): string
    requires |fields| >= 1
  {
    if |fields| == 1 then fields[0]
    else fields[0] + [d] + Join(fields[1..], d)
  }

  lemma {:induction false} JoinSplit(s: string, d: char)
    ensures Join(Split(s, d), d) == s
    decreases |s|
  {
    if d in s {
      var i := IndexOf(s, d);
      var tail := Split(s[i + 1..], d);
      var fields := [s[..i]] + tail;
      assert Split(s, d) == fields;
      assert fields[1..] == tail;
      JoinSplit(s[i + 1..], d);
      assert Join(fields, d) == s[..i] + [d] + s[i + 1..];
      assert s == s[..i] + [d] + s[i + 1..];
    }
  }

  lemma IndexOfJoin(a: string, d: char, b: string)
    requires d !in a
    ensures d in a + [d] + b
    ensures IndexOf(a + [d] + b, d) == |a|
    decreases |a|
  {
    var s := a + [d] + b;
    assert s[|a|] == d;
    if |a| > 0 {
      assert s[1..] == a[1..] + [d] + b;
      IndexOfJoin(a[1..], d, b);
    }
  }

  /** Splitting cuts at the first delimiter. */
  lemma SplitCons(a: string, d: char, b: string)
    requires d !in a
    ensures Split(a + [d] + b, d) == [a] + Split(b, d)
  {
    var s := a + [d] + b;
    IndexOfJoin(a, d, b);
    assert s[..|a|] == a;
    assert s[|a| + 1..] == b;
  }

  lemma {:induction false} SplitJoin(fields: seq<string>, d: char)
    requires |fields| >= 1
    requires forall i :: 0 <= i < |fields| ==> d !in fields[i]
    ensures Split(Join(fields, d), d) == fields
    decreases |fields|
  {
    if |fields| > 1 {
      var rest := Join(fields[1..], d);
      assert Join(fields, d) == fields[0] + [d] + rest;
      SplitCons(fields[0], d, rest);
      SplitJoin(fields[1..], d);
      assert fields == [fields[0]] + fields[1..];
    }
  }

  /** Leaves out the empty pieces at the end. */
  function TrimTrailingEmpty(fields: seq<string>): (r: seq<string>)
    ensures |r| <= |fields| && r == fields[..|r|]
    ensures |r| == 0 || r[|r| - 1] != ""
    ensures forall i :: |r| <= i < |fields| ==> fields[i] == ""
  {
    if |fields| > 0 && fields[|fields| - 1] == "" then TrimTrailingEmpty(fields[..|fields| - 1])
    else fields
  }

  /** `String.split` with a one-character pattern: a line without the
      delimiter is its own single field; otherwise the pieces between
      delimiters, minus the empty pieces at the end. */
  function SplitFields(s: string, d: char): (fields: seq<string>)
    ensures forall i :: 0 <= i < |fields| ==> d !in fields[i]
    ensures |fields| == 0 <==> |s| > 0 && OnlyDelimiters(s, d)
  {
    if d !in s then
      assert |s| == 0 || s[0] in s;
      [s]
    else
      AllPiecesEmpty(s, d);
      TrimTrailingEmpty(Split(s, d))
  }

  /** `s` holds nothing but the delimiter `d`. */
  predicate OnlyDelimiters(s: string, d: char) {
    forall i :: 0 <= i < |s| ==> s[i] == d
  }

  /** Every piece is the empty string. */
  predicate AllEmpty(fields: seq<string>) {
    forall i :: 0 <= i < |fields| ==> fields[i] == ""
  }

  /** Every piece of a split is empty exactly when the line is nothing but
      delimiters. */
  lemma {:induction false} AllPiecesEmpty(s: string, d: char)
    ensures AllEmpty(Split(s, d)) <==> OnlyDelimiters(s, d)
    decreases |s|
  {
    if d in s {
      var i := IndexOf(s, d);
      var t := s[i + 1..];
      var rest := Split(t, d);
      var fields := [s[..i]] + rest;
      assert Split(s, d) == fields;
      if i == 0 {
        AllPiecesEmpty(t, d);
        if AllEmpty(rest) {
          forall j | 0 < j < |fields|
            ensures fields[j] == ""
          {
            assert fields[j] == rest[j - 1];
          }
        }
        if AllEmpty(fields) {
          forall j | 0 <= j < |rest|
            ensures rest[j] == ""
          {
            assert fields[j + 1] == rest[j];
          }
        }
        if OnlyDelimiters(t, d) {
          forall j | 0 < j < |s|
            ensures s[j] == d
          {
            assert s[j] == t[j - 1];
          }
        }
        if OnlyDelimiters(s, d) {
          forall j | 0 <= j < |t|
            ensures t[j] == d
          {
            assert t[j] == s[j + 1];
          }
        }
      } else {
        assert fields[0] != "" by {
          assert |s[..i]| == i;
        }
        assert s[0] != d by {
          assert s[..i][0] == s[0];
        }
      }
    } else if |s| > 0 {
      assert s[0] in s;
      assert Split(s, d)[0] == s != "";
    }
  }

  /** The last piece of a split is empty only if the line is empty or ends
      with the delimiter. */
  lemma {:induction false} LastPieceEmpty(s: string, d: char)
    ensures Split(s, d)[|Split(s, d)| - 1] == "" ==> |s| == 0 || s[|s| - 1] == d
    decreases |s|
  {
    if d in s {
      var i := IndexOf(s, d);
      LastPieceEmpty(s[i + 1..], d);
      var t := s[i + 1..];
      if |t| > 0 {
        assert t[|t| - 1] == s[|s| - 1];
      }
    }
  }

  /** A line that does not end with the delimiter loses nothing to the split:
      joining its fields gives the line back. */
  lemma SplitFieldsKeepsLine(s: string, d: char)
    requires |s| > 0 && s[|s| - 1] != d
    ensures |SplitFields(s, d)| >= 1
    ensures Join(SplitFields(s, d), d) == s
  {
    if d in s {
      LastPieceEmpty(s, d);
      var f := Split(s, d);
      assert TrimTrailingEmpty(f) == f;
      JoinSplit(s, d);
    }
  }
}
