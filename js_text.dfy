/** The JavaScript string operations the data-move command is built from:
    `String.prototype.split` and `Array.prototype.join` with a one-character
    separator. */
module JsText {

  /** The last element of a non-empty sequence. */
  function Last<T>(s: seq<T>): T
    requires |s| > 0
  {
    s[|s| - 1]
  }

  /** `s.split(sep)`: every occurrence of `sep` ends one piece and starts the
      next, so the empty string gives `[""]` and a trailing separator gives an
      empty last piece. */
  function Split(s: string, sep: char): (pieces: seq<string>)
    ensures |pieces| >= 1
    decreases |s|
  {
    if s == [] then [""]
    else
      var rest := Split(s[1..], sep);
      if s[0] == sep then [""] + rest
      else [[s[0]] + rest[0]] + rest[1..]
  }

  /** `parts.join(sep)`: the parts with `sep` between neighbours; an empty
      array joins to the empty string. */
  function Join(parts: seq<string>, sep: char): string
  {
    if |parts| == 0 then ""
    else if |parts| == 1 then parts[0]
    else parts[0] + [sep] + Join(parts[1..], sep)
  }

  lemma JoinCons(a: string, rest: seq<string>, sep: char)
    requires |rest| >= 1
    ensures Join([a] + rest, sep) == a + [sep] + Join(rest, sep)
  {
    assert ([a] + rest)[1..] == rest;
  }

  /** Prepending a character to the first part prepends it to the joined text. */
  lemma JoinExtendHead(c: char, rest: seq<string>, sep: char)
    requires |rest| >= 1
    ensures Join([[c] + rest[0]] + rest[1..], sep) == [c] + Join(rest, sep)
  {
    if |rest| > 1 {
      JoinCons([c] + rest[0], rest[1..], sep);
      JoinCons(rest[0], rest[1..], sep);
      assert rest == [rest[0]] + rest[1..];
    }
  }

  /** Joining the pieces of a split with the same separator gives back the text. */
  lemma {:induction false} JoinSplit(s: string, sep: char)
    ensures Join(Split(s, sep), sep) == s
    decreases |s|
  {
    if s != [] {
      var rest := Split(s[1..], sep);
      JoinSplit(s[1..], sep);
      if s[0] == sep {
        JoinCons("", rest, sep);
        assert s == [sep] + s[1..];
      } else {
        JoinExtendHead(s[0], rest, sep);
        assert s == [s[0]] + s[1..];
      }
    }
  }

  /** Text without the separator splits into itself alone. */
  lemma {:induction false} SplitNoSep(a: string, sep: char)
    requires sep !in a
    ensures Split(a, sep) == [a]
    decreases |a|
  {
    if a != [] {
      SplitNoSep(a[1..], sep);
      assert a == [a[0]] + a[1..];
    }
  }

  /** A separator-free first piece is split off whole. */
  lemma {:induction false} SplitPrefix(a: string, b: string, sep: char)
    requires sep !in a
    ensures Split(a + [sep] + b, sep) == [a] + Split(b, sep)
    decreases |a|
  {
    if a == [] {
      assert a + [sep] + b == [sep] + b;
      assert ([sep] + b)[1..] == b;
    } else {
      assert (a + [sep] + b)[1..] == a[1..] + [sep] + b;
      SplitPrefix(a[1..], b, sep);
      assert a == [a[0]] + a[1..];
    }
  }

  /** Splitting the join of separator-free parts gives back the parts. */
  lemma {:induction false} SplitJoin(parts: seq<string>, sep: char)
    requires |parts| >= 1
    requires forall i :: 0 <= i < |parts| ==> sep !in parts[i]
    ensures Split(Join(parts, sep), sep) == parts
    decreases |parts|
  {
    if |parts| == 1 {
      SplitNoSep(parts[0], sep);
    } else {
      SplitJoin(parts[1..], sep);
      SplitPrefix(parts[0], Join(parts[1..], sep), sep);
      assert parts == [parts[0]] + parts[1..];
    }
  }

  /** The number of pieces is one more than the number of separators. */
  lemma {:induction false} SplitCount(s: string, sep: char)
    ensures |Split(s, sep)| == multiset(s)[sep] + 1
    decreases |s|
  {
    if s != [] {
      SplitCount(s[1..], sep);
      assert s == [s[0]] + s[1..];
      assert multiset(s) == multiset([s[0]]) + multiset(s[1..]);
    }
  }

  /** Every character of `piece` is a character of `s` other than `sep`. */
  predicate PieceOf(piece: string, s: string, sep: char)
  {
    forall ch :: ch in piece ==> ch in s && ch != sep
  }

  /** Every piece of a split is made of characters of the text other than the
      separator. */
  lemma {:induction false} SplitPiecesFrom(s: string, sep: char)
    ensures forall i :: 0 <= i < |Split(s, sep)| ==> PieceOf(Split(s, sep)[i], s, sep)
    decreases |s|
  {
    if s != [] {
      SplitPiecesFrom(s[1..], sep);
      var rest := Split(s[1..], sep);
      var pieces := Split(s, sep);
      assert s == [s[0]] + s[1..];
      forall i | 0 <= i < |pieces|
        ensures PieceOf(pieces[i], s, sep)
      {
        if s[0] == sep {
          assert pieces[i] == ([""] + rest)[i];
          if i > 0 {
            assert pieces[i] == rest[i - 1];
            assert PieceOf(rest[i - 1], s[1..], sep);
          }
        } else if i == 0 {
          assert pieces[0] == [s[0]] + rest[0];
          assert PieceOf(rest[0], s[1..], sep);
        } else {
          assert pieces[i] == rest[i];
          assert PieceOf(rest[i], s[1..], sep);
        }
      }
    }
  }

  /** A trailing separator adds exactly one empty last piece. */
  lemma {:induction false} SplitSnocSep(a: string, sep: char)
    ensures Split(a + [sep], sep) == Split(a, sep) + [""]
    decreases |a|
  {
    if a == [] {
      assert a + [sep] == [sep];
    } else {
      assert (a + [sep])[1..] == a[1..] + [sep];
      SplitSnocSep(a[1..], sep);
      var r := Split(a[1..], sep);
      if a[0] != sep {
        assert (r + [""])[0] == r[0];
        assert (r + [""])[1..] == r[1..] + [""];
      }
    }
  }

  /** Appending separator-free text extends the last piece. */
  lemma {:induction false} SplitSnocText(a: string, b: string, sep: char)
    requires sep !in b
    ensures var p := Split(a, sep);
            Split(a + b, sep) == p[..|p| - 1] + [Last(p) + b]
    decreases |a|
  {
    if a == [] {
      assert a + b == b;
      SplitNoSep(b, sep);
    } else {
      assert (a + b)[1..] == a[1..] + b;
      SplitSnocText(a[1..], b, sep);
      var q := Split(a[1..], sep);
      var r := Split(a[1..] + b, sep);
      assert r == q[..|q| - 1] + [Last(q) + b];
      if a[0] == sep {
        assert Split(a, sep) == [""] + q;
        assert ([""] + q)[..|q|] == [""] + q[..|q| - 1];
      } else if |q| == 1 {
        assert r == [q[0] + b];
        assert Split(a + b, sep) == [[a[0]] + (q[0] + b)];
        assert [a[0]] + (q[0] + b) == ([a[0]] + q[0]) + b;
        assert Split(a, sep) == [[a[0]] + q[0]];
      } else {
        assert r[0] == q[0];
        assert r[1..] == q[1..|q| - 1] + [Last(q) + b];
        var p := Split(a, sep);
        assert p == [[a[0]] + q[0]] + q[1..];
        assert p[..|p| - 1] == [[a[0]] + q[0]] + q[1..|q| - 1];
      }
    }
  }

  /** Text ending in the separator splits with an empty last piece. */
  lemma SplitTrailingSep(s: string, sep: char)
    ensures s != [] && Last(s) == sep ==> Last(Split(s, sep)) == ""
  {
    if s != [] && Last(s) == sep {
      var n := |s| - 1;
      assert s == s[..n] + [sep];
      SplitSnocSep(s[..n], sep);
    }
  }
}
