/** String helpers shared by the argument parser, the escapers and the renderers:
    Python's one-character `str.replace` and `str.split`, prefix tests,
    and splitting at the first occurrence of a separator (the step every parser
    of a rendering takes). */
module Text {

  datatype Option<+T> = None | Some(value: T)

  /** `s.replace(c, rep)` for a one-character pattern `c`: every `c` becomes `rep`. */
  function Replace(s: string, c: char, rep: string): (r: string)
    ensures c !in rep ==> c !in r
    ensures c !in s ==> r == s
  {
    if s == [] then []
    else (if s[0] == c then rep else [s[0]]) + Replace(s[1..], c, rep)
  }

  /** Deleting a character is replacing it by nothing: exactly the other characters remain. */
  lemma DeleteMembers(s: string, c: char)
    ensures forall x :: x in Replace(s, c, "") <==> x in s && x != c
  {
    if s != [] {
      DeleteMembers(s[1..], c);
      assert s == [s[0]] + s[1..];
    }
  }

  /** `Replace` works character by character, so it distributes over concatenation. */
  lemma {:induction false} ReplaceAppend(a: string, b: string, c: char, rep: string)
    ensures Replace(a + b, c, rep) == Replace(a, c, rep) + Replace(b, c, rep)
  {
    if a != [] {
      var head := if a[0] == c then rep else [a[0]];
      assert (a + b)[0] == a[0] && (a + b)[1..] == a[1..] + b;
      assert Replace(a + b, c, rep) == head + Replace(a[1..] + b, c, rep);
      ReplaceAppend(a[1..], b, c, rep);
      assert Replace(a, c, rep) == head + Replace(a[1..], c, rep);
    } else {
      assert a + b == b;
    }
  }

  /** Python's `s.split(sep)` for a one-character separator: the pieces between
      separators, including the empty ones; the empty string gives one empty piece. */
  function Split(s: string, sep: char): (r: seq<string>)
    ensures |r| >= 1
    ensures forall i :: 0 <= i < |r| ==> sep !in r[i]
  {
    if s == [] then [[]]
    else
      var rest := Split(s[1..], sep);
      if s[0] == sep then [[]] + rest
      else [[s[0]] + rest[0]] + rest[1..]
  }

  /** The pieces of a split hold only characters of the string split. */
  lemma {:induction false} SplitMembers(s: string, sep: char)
    ensures forall i, x :: 0 <= i < |Split(s, sep)| && x in Split(s, sep)[i] ==> x in s
  {
    if s != [] {
      SplitMembers(s[1..], sep);
      assert forall x :: x in s[1..] ==> x in s;
    }
  }

  /** `sep.join(pieces)`, the inverse of `Split`. */
  function Join(pieces: seq<string>, sep: string): string
  {
    if pieces == [] then []
    else if |pieces| == 1 then pieces[0]
    else pieces[0] + sep + Join(pieces[1..], sep)
  }

  /** Joining the pieces of a split gives back the string. */
  lemma {:induction false} JoinSplit(s: string, sep: char)
    ensures Join(Split(s, sep), [sep]) == s
  {
    if s != [] {
      var rest := Split(s[1..], sep);
      JoinSplit(s[1..], sep);
      if s[0] == sep {
        assert s == [sep] + s[1..];
      } else if |rest| == 1 {
        assert s == [s[0]] + s[1..];
      } else {
        assert Join(rest, [sep]) == rest[0] + [sep] + Join(rest[1..], [sep]);
        var r := Split(s, sep);
        assert r[1..] == rest[1..];
        assert s == [s[0]] + s[1..];
      }
    }
  }

  /** Splitting `x + [sep] + t` where `x` holds no separator gives `x` and then the pieces of `t`. */
  lemma {:induction false} SplitFirstPiece(x: string, sep: char, t: string)
    requires sep !in x
    ensures Split(x + [sep] + t, sep) == [x] + Split(t, sep)
  {
    if x == [] {
      assert [sep] + t == x + [sep] + t;
      assert ([sep] + t)[1..] == t;
    } else {
      assert (x + [sep] + t)[1..] == x[1..] + [sep] + t;
      SplitFirstPiece(x[1..], sep, t);
      assert [x[0]] + x[1..] == x;
    }
  }

  /** A separator between `x` and `y` is where the pieces of `x` end and those of `y` begin. */
  lemma {:induction false} SplitAppend(x: string, sep: char, y: string)
    ensures Split(x + [sep] + y, sep) == Split(x, sep) + Split(y, sep)
  {
    if x == [] {
      assert x + [sep] + y == [sep] + y;
      assert ([sep] + y)[1..] == y;
    } else {
      assert (x + [sep] + y)[1..] == x[1..] + [sep] + y;
      SplitAppend(x[1..], sep, y);
    }
  }

  /** `Replace` applied to a join of pieces that do not hold `c` touches only the separators. */
  lemma {:induction false} DeleteFromJoin(pieces: seq<string>, sep: string, c: char)
    requires forall i :: 0 <= i < |pieces| ==> c !in pieces[i]
    ensures Replace(Join(pieces, sep), c, "") == Join(pieces, Replace(sep, c, ""))
  {
    if |pieces| > 1 {
      DeleteFromJoin(pieces[1..], sep, c);
      ReplaceAppend(pieces[0] + sep, Join(pieces[1..], sep), c, "");
      ReplaceAppend(pieces[0], sep, c, "");
    }
  }

  /** A string without the separator splits into itself alone. */
  lemma {:induction false} SplitNoSeparator(x: string, sep: char)
    requires sep !in x
    ensures Split(x, sep) == [x]
  {
    if x != [] {
      SplitNoSeparator(x[1..], sep);
      assert [x[0]] + x[1..] == x;
    }
  }

  /** `Split` is the only way to cut a string into separator-free pieces that join back
      to it: any such cut is the split. */
  lemma {:induction false} SplitUnique(pieces: seq<string>, sep: char)
    requires |pieces| >= 1
    requires forall i :: 0 <= i < |pieces| ==> sep !in pieces[i]
    ensures Split(Join(pieces, [sep]), sep) == pieces
  {
    if |pieces| == 1 {
      SplitNoSeparator(pieces[0], sep);
    } else {
      SplitUnique(pieces[1..], sep);
      SplitFirstPiece(pieces[0], sep, Join(pieces[1..], [sep]));
      assert pieces == [pieces[0]] + pieces[1..];
    }
  }

  /** All the pieces laid end to end. */
  function Flatten(pieces: seq<string>): string
  {
    if pieces == [] then [] else pieces[0] + Flatten(pieces[1..])
  }

  lemma {:induction false} FlattenAppend(a: seq<string>, b: seq<string>)
    ensures Flatten(a + b) == Flatten(a) + Flatten(b)
  {
    if a == [] {
      assert a + b == b;
    } else {
      assert (a + b)[1..] == a[1..] + b;
      FlattenAppend(a[1..], b);
    }
  }

  /** The pieces of a split, laid end to end, are the string with its separators deleted. */
  lemma {:induction false} FlattenSplit(s: string, sep: char)
    ensures Flatten(Split(s, sep)) == Replace(s, sep, "")
  {
    if s != [] {
      var rest := Split(s[1..], sep);
      FlattenSplit(s[1..], sep);
      if s[0] != sep {
        assert Flatten(rest) == rest[0] + Flatten(rest[1..]);
      }
    }
  }

  lemma AppendAssoc(a: string, b: string, c: string)
    ensures (a + b) + c == a + (b + c)
  {
  }

  /** A non-empty sequence is its first element followed by the rest. */
  lemma ConsAppend<T>(a: seq<T>, b: seq<T>)
    requires a != []
    ensures [a[0]] + (a[1..] + b) == a + b
  {
    assert a == [a[0]] + a[1..];
  }

  /** A string is its part before position `n` followed by its part from `n` on. */
  lemma SliceJoin(s: string, n: nat)
    requires n <= |s|
    ensures s[..n] + s[n..] == s
  {
  }

  predicate StartsWith(s: string, prefix: string)
  {
    |prefix| <= |s| && s[..|prefix|] == prefix
  }

  lemma StartsWithAppend(a: string, b: string)
    ensures StartsWith(a + b, a)
    ensures (a + b)[|a|..] == b
  {
    assert (a + b)[..|a|] == a;
  }

  /** Whether `sep` occurs in `s` at position `j`. */
  predicate OccursAt(s: string, sep: string, j: int)
  {
    0 <= j <= |s| && StartsWith(s[j..], sep)
  }

  /** A string that differs from `prefix` at some position does not start with it. */
  lemma DiffersAt(s: string, prefix: string, k: nat)
    requires k < |prefix| && k < |s| && s[k] != prefix[k]
    ensures !StartsWith(s, prefix)
  {
    if |prefix| <= |s| {
      assert s[..|prefix|][k] == s[k];
    }
  }

  /** Cuts `s` at the first occurrence of `sep`: the text before it and the text after it. */
  function SplitAt(s: string, sep: string): (r: Option<(string, string)>)
    requires |sep| > 0
    ensures r.Some? ==> s == r.value.0 + sep + r.value.1
    ensures r.Some? ==> forall j :: 0 <= j < |r.value.0| ==> !OccursAt(s, sep, j)
    ensures r.None? ==> forall j :: 0 <= j <= |s| ==> !OccursAt(s, sep, j)
    decreases |s|
  {
    if StartsWith(s, sep) then
      assert s == [] + sep + s[|sep|..];
      Some(([], s[|sep|..]))
    else if s == [] then None
    else
      assert s[0..] == s;
      assert forall j :: 1 <= j <= |s| ==> OccursAt(s, sep, j) == OccursAt(s[1..], sep, j - 1) by {
        assert forall j :: 1 <= j <= |s| ==> s[j..] == s[1..][j - 1..];
      }
      match SplitAt(s[1..], sep)
      case None => None
      case Some((before, after)) =>
        assert s == [s[0]] + s[1..];
        Some(([s[0]] + before, after))
  }

  /** When `sep` does not occur in `x + sep + rest` before `sep` itself, the cut falls right after `x`. */
  lemma {:induction false} SplitAtFirst(x: string, sep: string, rest: string)
    requires |sep| > 0
    requires forall j :: 0 <= j < |x| ==> !OccursAt(x + (sep + rest), sep, j)
    ensures SplitAt(x + (sep + rest), sep) == Some((x, rest))
  {
    var s := x + (sep + rest);
    assert OccursAt(s, sep, |x|) by {
      StartsWithAppend(x, sep + rest);
      StartsWithAppend(sep, rest);
    }
    var r := SplitAt(s, sep);
    if r.None? {
      assert false;
    } else {
      var (before, after) := r.value;
      assert |before| == |x| by {
        if |before| < |x| {
          assert OccursAt(s, sep, |before|) by {
            assert s[|before|..] == sep + after;
            StartsWithAppend(sep, after);
          }
        }
      }
      assert before == s[..|x|] == x;
      assert after == s[|x| + |sep|..] == rest;
    }
  }

  /** The common case of `SplitAtFirst`: the separator's first character is not in `x`. */
  lemma SplitAtHeadFree(x: string, sep: string, rest: string)
    requires |sep| > 0 && sep[0] !in x
    ensures SplitAt(x + (sep + rest), sep) == Some((x, rest))
  {
    var s := x + (sep + rest);
    assert forall j :: 0 <= j < |x| ==> s[j..][0] == x[j];
    SplitAtFirst(x, sep, rest);
  }
}
