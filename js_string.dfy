/**
 The JavaScript string and array built-ins that the upload handler chains together:
 `String.prototype.split` with a one-character separator, `Array.prototype.filter(Boolean)`
 on an array of strings, `Array.prototype.slice(start)` and `Array.prototype.join(sep)`.
 */
module JsString {

  /** Number of occurrences of `sep` in `s`. */
  function Occurrences(s: string, sep: char): nat
  {
    if s == [] then 0 else (if s[0] == sep then 1 else 0) + Occurrences(s[1..], sep)
  }

  /** `s.split(sep)`: the maximal pieces between separators, empty pieces included,
      so `"".split(".")` is `[""]` and `"a..b".split(".")` is `["a", "", "b"]`. */
  function Split(s: string, sep: char): (pieces: seq<string>)
    ensures |pieces| == Occurrences(s, sep) + 1
    ensures forall k :: 0 <= k < |pieces| ==> sep !in pieces[k]
  {
    if s == [] then [""]
    else
      var rest := Split(s[1..], sep);
      if s[0] == sep then [""] + rest
      else
        assert sep !in rest[0];
        [[s[0]] + rest[0]] + rest[1..]
  }

  /** Sum of the lengths of the pieces. */
  function TotalLength(pieces: seq<string>): nat
  {
    if pieces == [] then 0 else |pieces[0]| + TotalLength(pieces[1..])
  }

  /** `pieces.join(sep)`: the pieces with one separator between neighbours. */
  function Join(pieces: seq<string>, sep: char): string
  {
    if pieces == [] then ""
    else if |pieces| == 1 then pieces[0]
    else pieces[0] + [sep] + Join(pieces[1..], sep)
  }

  /** A join is as long as its pieces together plus one separator per gap between them. */
  lemma {:induction false} JoinLength(pieces: seq<string>, sep: char)
    requires pieces != []
    ensures |Join(pieces, sep)| == TotalLength(pieces) + |pieces| - 1
  {
    if |pieces| > 1 {
      JoinLength(pieces[1..], sep);
    }
  }

  /** `xs.filter(Boolean)` on strings: the empty string is the only falsy string,
      so exactly the non-empty pieces are kept, in their order. */
  function DropEmpty(xs: seq<string>): (kept: seq<string>)
    ensures |kept| <= |xs|
    ensures forall k :: 0 <= k < |kept| ==> kept[k] != "" && kept[k] in xs
    ensures forall x :: x in xs && x != "" ==> x in kept
    ensures |xs| == 1 ==> kept == if xs[0] == "" then [] else xs
  {
    if xs == [] then []
    else if xs[0] == "" then DropEmpty(xs[1..])
    else [xs[0]] + DropEmpty(xs[1..])
  }

  /** The filter works piece by piece: filtering a concatenation concatenates the filtered
      parts, so order and repeated pieces are kept. */
  lemma {:induction false} DropEmptyAppend(xs: seq<string>, ys: seq<string>)
    ensures DropEmpty(xs + ys) == DropEmpty(xs) + DropEmpty(ys)
  {
    if xs == [] {
      assert xs + ys == ys;
    } else {
      assert (xs + ys)[0] == xs[0];
      assert (xs + ys)[1..] == xs[1..] + ys;
      DropEmptyAppend(xs[1..], ys);
    }
  }

  /** `xs.slice(start)` for a non-negative start: everything from index `start` on,
      and the empty array when `start` is past the end. */
  function SliceFrom<T>(xs: seq<T>, start: nat): (r: seq<T>)
    ensures |r| == if start <= |xs| then |xs| - start else 0
    ensures forall k :: 0 <= k < |r| ==> r[k] == xs[start + k]
  {
    if start <= |xs| then xs[start..] else []
  }

  /** Joining a head onto a tail adds a separator exactly when the tail is non-empty. */
  lemma JoinCons(head: string, tail: seq<string>, sep: char)
    ensures Join([head] + tail, sep) == if tail == [] then head else head + [sep] + Join(tail, sep)
  {
    assert ([head] + tail)[1..] == tail;
  }

  /** Joining non-empty pieces gives the empty string only when there are no pieces. */
  lemma JoinEmptyIff(pieces: seq<string>, sep: char)
    requires forall k :: 0 <= k < |pieces| ==> pieces[k] != ""
    ensures Join(pieces, sep) == "" <==> pieces == []
  {
    if |pieces| > 1 {
      assert |Join(pieces, sep)| >= |pieces[0]|;
    }
  }

  /** A string without the separator splits into itself alone. */
  lemma {:induction false} SplitFree(s: string, sep: char)
    requires sep !in s
    ensures Split(s, sep) == [s]
  {
    if s != [] {
      assert s[0] == s[..1][0];
      SplitFree(s[1..], sep);
      assert [s[0]] + s[1..] == s;
    }
  }

  /** Splitting `a + sep + b`, where `a` has no separator, gives `a` followed by the pieces of `b`. */
  lemma {:induction false} SplitAfterFree(a: string, b: string, sep: char)
    requires sep !in a
    ensures Split(a + [sep] + b, sep) == [a] + Split(b, sep)
  {
    var s := a + [sep] + b;
    if a == [] {
      assert s[1..] == b;
    } else {
      assert s[0] == a[0];
      assert s[1..] == a[1..] + [sep] + b;
      assert a[0] == a[..1][0];
      SplitAfterFree(a[1..], b, sep);
      assert [a[0]] + a[1..] == a;
    }
  }

  /** Joining and splitting are inverse: splitting forgets nothing and joining adds nothing. */
  lemma {:induction false} SplitJoinRoundTrip(s: string, sep: char)
    ensures Join(Split(s, sep), sep) == s
  {
    if s != [] {
      var rest := Split(s[1..], sep);
      SplitJoinRoundTrip(s[1..], sep);
      if s[0] == sep {
        assert Split(s, sep) == [""] + rest;
        JoinCons("", rest, sep);
        assert s == [sep] + s[1..];
      } else {
        assert Split(s, sep) == [[s[0]] + rest[0]] + rest[1..];
        JoinCons([s[0]] + rest[0], rest[1..], sep);
        JoinCons(rest[0], rest[1..], sep);
        assert [rest[0]] + rest[1..] == rest;
        assert s == [s[0]] + s[1..];
      }
    }
  }

  /** Splitting a join of at least one separator-free piece recovers the pieces. */
  lemma {:induction false} JoinSplitRoundTrip(pieces: seq<string>, sep: char)
    requires |pieces| >= 1
    requires forall k :: 0 <= k < |pieces| ==> sep !in pieces[k]
    ensures Split(Join(pieces, sep), sep) == pieces
  {
    if |pieces| == 1 {
      SplitFree(pieces[0], sep);
    } else {
      JoinSplitRoundTrip(pieces[1..], sep);
      SplitAfterFree(pieces[0], Join(pieces[1..], sep), sep);
      assert [pieces[0]] + pieces[1..] == pieces;
    }
  }
}
