/** Strings cut at, and joined with, a separator character. */
module Text {

  /** The fields, with one separator between each two. */
  function Join(fields: seq<string>, sep: char): string
    requires |fields| > 0
  {
    if |fields| == 1 then fields[0] else fields[0] + [sep] + Join(fields[1..], sep)
  }

  /** The maximal separator-free pieces of `s`, left to right. */
  function Split(s: string, sep: char): (pieces: seq<string>)
    ensures |pieces| > 0
  {
    if s == "" then [""]
    else
      var rest := Split(s[1..], sep);
      if s[0] == sep then [""] + rest else [[s[0]] + rest[0]] + rest[1..]
  }

  /** Some two neighbouring characters of `s` are both `c`. */
  ghost predicate Doubled(s: string, c: char) {
    exists i :: 0 <= i < |s| - 1 && s[i] == c && s[i + 1] == c
  }

  ghost predicate AllFree(fields: seq<string>, sep: char) {
    forall f | f in fields :: sep !in f
  }

  lemma {:induction false} SplitFree(s: string, sep: char)
    ensures AllFree(Split(s, sep), sep)
  {
    if s != "" {
      SplitFree(s[1..], sep);
      var rest := Split(s[1..], sep);
      assert rest[0] in rest;
      assert forall f | f in rest[1..] :: f in rest;
    }
  }

  /** Nothing is lost by splitting. */
  lemma {:induction false} JoinSplit(s: string, sep: char)
    ensures Join(Split(s, sep), sep) == s
  {
    if s != "" {
      var rest := Split(s[1..], sep);
      JoinSplit(s[1..], sep);
      if s[0] == sep {
        assert ([""] + rest)[1..] == rest;
        assert "" + [sep] + Join(rest, sep) == s;
      } else {
        var pieces := [[s[0]] + rest[0]] + rest[1..];
        assert pieces[1..] == rest[1..];
        assert Join(pieces, sep) == [s[0]] + Join(rest, sep);
      }
    }
  }

  lemma {:induction false} SplitPrefix(f: string, s: string, sep: char)
    requires sep !in f
    ensures Split(f + s, sep) == [f + Split(s, sep)[0]] + Split(s, sep)[1..]
  {
    var pieces := Split(s, sep);
    if f == "" {
      assert f + s == s && f + pieces[0] == pieces[0];
      assert [pieces[0]] + pieces[1..] == pieces;
    } else {
      assert (f + s)[1..] == f[1..] + s;
      SplitPrefix(f[1..], s, sep);
      assert [f[0]] + (f[1..] + pieces[0]) == f + pieces[0];
    }
  }

  lemma SplitHead(f: string, rest: string, sep: char)
    requires sep !in f
    ensures Split(f + [sep] + rest, sep) == [f] + Split(rest, sep)
  {
    var s := [sep] + rest;
    assert s[1..] == rest && f + [sep] + rest == f + s;
    SplitPrefix(f, s, sep);
    assert f + "" == f;
  }

  /** Splitting undoes joining, for fields that do not contain the separator. */
  lemma {:induction false} SplitJoin(fields: seq<string>, sep: char)
    requires |fields| > 0 && AllFree(fields, sep)
    ensures Split(Join(fields, sep), sep) == fields
  {
    var f := fields[0];
    if |fields| == 1 {
      SplitPrefix(f, "", sep);
      assert f + "" == f;
    } else {
      var rest := Join(fields[1..], sep);
      SplitJoin(fields[1..], sep);
      SplitPrefix(f, [sep] + rest, sep);
      assert ([sep] + rest)[1..] == rest;
      assert f + [sep] + rest == f + ([sep] + rest);
      assert Split([sep] + rest, sep) == [""] + fields[1..];
      assert f + "" == f && [f] + fields[1..] == fields;
    }
  }

  lemma {:induction false} JoinAppend(fields: seq<string>, last: string, sep: char)
    requires |fields| > 0
    ensures Join(fields + [last], sep) == Join(fields, sep) + [sep] + last
  {
    if |fields| > 1 {
      JoinAppend(fields[1..], last, sep);
      assert (fields + [last])[1..] == fields[1..] + [last];
      assert fields[0] + [sep] + (Join(fields[1..], sep) + [sep] + last)
          == fields[0] + [sep] + Join(fields[1..], sep) + [sep] + last;
    }
  }

  lemma {:induction false} InJoin(fields: seq<string>, sep: char, c: char)
    requires |fields| > 0 && c != sep
    ensures c in Join(fields, sep) <==> exists f :: f in fields && c in f
  {
    if |fields| > 1 {
      InJoin(fields[1..], sep, c);
      assert fields == [fields[0]] + fields[1..];
    }
  }

  lemma DoubledConcat(a: string, b: string, c: char)
    ensures Doubled(a + b, c) <==>
              Doubled(a, c) || Doubled(b, c) || (a != "" && b != "" && a[|a| - 1] == c && b[0] == c)
  {
    var s := a + b;
    if i :| 0 <= i < |a| - 1 && a[i] == c && a[i + 1] == c {
      assert s[i] == c && s[i + 1] == c;
    }
    if i :| 0 <= i < |b| - 1 && b[i] == c && b[i + 1] == c {
      assert s[i + |a|] == c && s[i + |a| + 1] == c;
    }
    if a != "" && b != "" && a[|a| - 1] == c && b[0] == c {
      assert s[|a| - 1] == c && s[|a| - 1 + 1] == c;
    }
    if i :| 0 <= i < |s| - 1 && s[i] == c && s[i + 1] == c {
      if i + 1 < |a| {
        assert a[i] == c && a[i + 1] == c;
      } else if |a| <= i {
        assert b[i - |a|] == c && b[i - |a| + 1] == c;
      }
    }
  }

  /** In a joined string the separator is doubled exactly where an inner field is empty. */
  lemma {:induction false} DoubledJoin(fields: seq<string>, sep: char)
    requires |fields| > 0 && AllFree(fields, sep)
    ensures Doubled(Join(fields, sep), sep) <==> exists i :: 0 < i < |fields| - 1 && fields[i] == ""
  {
    if |fields| == 1 {
      assert fields[0] in fields;
    } else {
      var f, rest := fields[0], fields[1..];
      var tail := Join(rest, sep);
      DoubledJoin(rest, sep);
      assert f in fields && rest[0] in fields;
      DoubledConcat(f, [sep] + tail, sep);
      DoubledConcat([sep], tail, sep);
      assert f + [sep] + tail == f + ([sep] + tail);
      assert tail != "" && tail[0] == sep <==> |rest| > 1 && rest[0] == "";
      if i :| 0 < i < |rest| - 1 && rest[i] == "" {
        assert fields[i + 1] == "";
      }
      if i :| 0 < i < |fields| - 1 && fields[i] == "" {
        assert rest[i - 1] == "";
      }
    }
  }

  /** Joining with another character doubles nothing that was not doubled inside a field. */
  lemma {:induction false} DoubledJoinOther(fields: seq<string>, sep: char, c: char)
    requires |fields| > 0 && c != sep
    ensures Doubled(Join(fields, sep), c) <==> exists f :: f in fields && Doubled(f, c)
  {
    if |fields| == 1 {
      assert fields == [fields[0]];
    } else {
      var f, rest := fields[0], fields[1..];
      DoubledJoinOther(rest, sep, c);
      DoubledConcat(f + [sep], Join(rest, sep), c);
      DoubledConcat(f, [sep], c);
      assert fields == [f] + rest;
    }
  }

  /** What repeated `std::getline` calls deliver: the pieces, without the empty one after a final separator. */
  function Lines(s: string, sep: char): seq<string> {
    var pieces := Split(s, sep);
    if pieces[|pieces| - 1] == "" then pieces[..|pieces| - 1] else pieces
  }

  lemma LinesStep(f: string, rest: string, sep: char)
    requires sep !in f
    ensures Lines(f + [sep] + rest, sep) == [f] + Lines(rest, sep)
    ensures Lines(f, sep) == if f == "" then [] else [f]
  {
    SplitPrefix(f, [sep] + rest, sep);
    assert ([sep] + rest)[1..] == rest;
    assert f + [sep] + rest == f + ([sep] + rest);
    SplitPrefix(f, "", sep);
    assert f + "" == f;
  }
}
