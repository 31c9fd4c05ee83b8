/** Splitting and joining strings the way JavaScript's `String.prototype.split`
    (with a one-character separator) and `Array.prototype.join` do. */
module Strings {

  /** `s.split(c)`: the pieces between occurrences of `c`, empty pieces kept;
      an empty string splits into one empty piece. */
  function Split(s: string, c: char): (parts: seq<string>)
    ensures |parts| >= 1
    ensures forall k :: 0 <= k < |parts| ==> c !in parts[k]
  {
    if s == [] then [""]
    else
      var rest := Split(s[1..], c);
      if s[0] == c then [""] + rest
      else [[s[0]] + rest[0]] + rest[1..]
  }

  /** `parts.join(sep)`: the parts with `sep` between neighbours. */
  function Join(parts: seq<string>, sep: string): string
  {
    if |parts| == 0 then ""
    else if |parts| == 1 then parts[0]
    else parts[0] + sep + Join(parts[1..], sep)
  }

  /** Every occurrence of `c` in `s` replaced by `d`, character by character:
      an independent description of `s.split(c).join(d)`. */
  function Replace(s: string, c: char, d: char): (r: string)
    ensures |r| == |s|
    ensures forall k :: 0 <= k < |s| ==> r[k] == if s[k] == c then d else s[k]
  {
    if s == [] then [] else [if s[0] == c then d else s[0]] + Replace(s[1..], c, d)
  }

  predicate StartsWith(s: string, prefix: string)
  {
    |prefix| <= |s| && s[..|prefix|] == prefix
  }

  /** Joining with one more part in front. */
  lemma JoinCons(x: string, xs: seq<string>, sep: string)
    requires |xs| >= 1
    ensures Join([x] + xs, sep) == x + sep + Join(xs, sep)
  {
    assert ([x] + xs)[1..] == xs;
  }

  /** Joining with two more parts in front. */
  lemma JoinPair(x: string, y: string, rest: seq<string>, sep: string)
    requires |rest| >= 1
    ensures Join([x, y] + rest, sep) == x + sep + y + sep + Join(rest, sep)
  {
    JoinCons(y, rest, sep);
    assert [x, y] + rest == [x] + ([y] + rest);
    JoinCons(x, [y] + rest, sep);
  }

  /** Splitting on `c` and joining with `d` is replacing `c` by `d`. */
  lemma {:induction false} JoinSplitIsReplace(s: string, c: char, d: char)
    ensures Join(Split(s, c), [d]) == Replace(s, c, d)
  {
    if s != [] {
      var rest := Split(s[1..], c);
      JoinSplitIsReplace(s[1..], c, d);
      if s[0] == c {
        JoinCons("", rest, [d]);
      } else if |rest| == 1 {
        assert Split(s, c) == [[s[0]] + rest[0]];
      } else {
        assert Split(s, c) == [[s[0]] + rest[0]] + rest[1..];
        JoinCons([s[0]] + rest[0], rest[1..], [d]);
        JoinCons(rest[0], rest[1..], [d]);
      }
    }
  }

  /** Splitting and re-joining on the same character gives back the string. */
  lemma JoinSplit(s: string, c: char)
    ensures Join(Split(s, c), [c]) == s
  {
    JoinSplitIsReplace(s, c, c);
    assert Replace(s, c, c) == s;
  }

  /** After replacing `c` by a different `d`, no `c` is left. */
  lemma ReplaceRemoves(s: string, c: char, d: char)
    requires c != d
    ensures c !in Replace(s, c, d)
  {
  }

  /** Characters other than `c` pass through `Replace` unchanged. */
  lemma ReplaceKeeps(s: string, c: char, d: char, e: char)
    requires e != c && e != d
    ensures (e in Replace(s, c, d)) <==> (e in s)
  {
    var r := Replace(s, c, d);
    if e in r {
      var k :| 0 <= k < |r| && r[k] == e;
      assert s[k] == e;
    }
    if e in s {
      var k :| 0 <= k < |s| && s[k] == e;
      assert r[k] == e;
    }
  }

  /** Splitting undoes joining when no part holds the separator. */
  lemma {:induction false} SplitJoin(parts: seq<string>, c: char)
    requires |parts| >= 1
    requires forall k :: 0 <= k < |parts| ==> c !in parts[k]
    ensures Split(Join(parts, [c]), c) == parts
  {
    if |parts| == 1 {
      SplitNoSeparator(parts[0], c);
    } else {
      SplitJoin(parts[1..], c);
      SplitAppend(parts[0], Join(parts[1..], [c]), c);
      SplitNoSeparator(parts[0], c);
      assert parts == [parts[0]] + parts[1..];
    }
  }

  /** A string without the separator splits into itself alone. */
  lemma {:induction false} SplitNoSeparator(s: string, c: char)
    requires c !in s
    ensures Split(s, c) == [s]
  {
    if s != [] {
      assert s[0] != c && c !in s[1..];
      SplitNoSeparator(s[1..], c);
      assert [s[0]] + s[1..] == s;
    }
  }

  /** Splitting `x + [c] + y` where `x` has no separator. */
  lemma {:induction false} SplitAppend(x: string, y: string, c: char)
    requires c !in x
    ensures Split(x + [c] + y, c) == [x] + Split(y, c)
  {
    if x != [] {
      assert (x + [c] + y)[1..] == x[1..] + [c] + y;
      assert (x + [c] + y)[0] == x[0] != c;
      SplitAppend(x[1..], y, c);
      assert [x[0]] + x[1..] == x;
    } else {
      assert (x + [c] + y)[1..] == y;
    }
  }

  /** On lists of one length or more, joining is injective when no part holds
      the separator. */
  lemma JoinInjective(a: seq<string>, b: seq<string>, c: char)
    requires |a| >= 1 && |b| >= 1
    requires forall k :: 0 <= k < |a| ==> c !in a[k]
    requires forall k :: 0 <= k < |b| ==> c !in b[k]
    requires Join(a, [c]) == Join(b, [c])
    ensures a == b
  {
    SplitJoin(a, c);
    SplitJoin(b, c);
  }

  /** A character other than the separator occurs in the joined string
      exactly when it occurs in one of the parts. */
  lemma {:induction false} JoinChars(parts: seq<string>, sep: char, e: char)
    requires e != sep
    ensures (e in Join(parts, [sep])) <==> exists k :: 0 <= k < |parts| && e in parts[k]
  {
    if |parts| > 1 {
      JoinChars(parts[1..], sep, e);
      var j := Join(parts[1..], [sep]);
      assert Join(parts, [sep]) == parts[0] + [sep] + j;
      if e in j {
        var k :| 0 <= k < |parts[1..]| && e in parts[1..][k];
        assert e in parts[k + 1];
      }
      if exists k :: 0 <= k < |parts| && e in parts[k] {
        var k :| 0 <= k < |parts| && e in parts[k];
        if k > 0 { assert e in parts[1..][k - 1]; }
      }
    }
  }

  /** Where the `i`-th part starts in `Join(parts, sep)`: each earlier part
      and the separator after it come first. */
  function Offset(parts: seq<string>, sep: string, i: nat): nat
    requires i <= |parts|
  {
    if i == 0 then 0 else |parts[0]| + |sep| + Offset(parts[1..], sep, i - 1)
  }

  /** The next part starts after this one and its separator. */
  lemma {:induction false} OffsetNext(parts: seq<string>, sep: string, i: nat)
    requires i < |parts|
    ensures Offset(parts, sep, i + 1) == Offset(parts, sep, i) + |parts[i]| + |sep|
  {
    if i > 0 {
      OffsetNext(parts[1..], sep, i - 1);
      assert parts[1..][i - 1] == parts[i];
    }
  }

  /** A slice of the right operand of a concatenation, seen from the whole. */
  lemma SliceRight(x: string, y: string, lo: nat, hi: nat)
    requires lo <= hi <= |y|
    ensures (x + y)[|x| + lo..|x| + hi] == y[lo..hi]
  {
  }

  /** Each part sits at its offset in the joined string, followed by the
      separator unless it is the last; the string ends with the last part. */
  lemma {:induction false} JoinAt(parts: seq<string>, sep: string, i: nat)
    requires i < |parts|
    ensures Offset(parts, sep, i) + |parts[i]| <= |Join(parts, sep)|
    ensures Join(parts, sep)[Offset(parts, sep, i)..Offset(parts, sep, i) + |parts[i]|] == parts[i]
    ensures i + 1 < |parts| ==>
              && Offset(parts, sep, i) + |parts[i]| + |sep| <= |Join(parts, sep)|
              && Join(parts, sep)[Offset(parts, sep, i) + |parts[i]|..Offset(parts, sep, i) + |parts[i]| + |sep|] == sep
    ensures i + 1 == |parts| ==> Offset(parts, sep, i) + |parts[i]| == |Join(parts, sep)|
  {
    if |parts| > 1 {
      var head := parts[0] + sep;
      var rest := Join(parts[1..], sep);
      assert Join(parts, sep) == head + rest;
      if i == 0 {
        assert head[..|parts[0]|] == parts[0] && head[|parts[0]|..] == sep;
      } else {
        JoinAt(parts[1..], sep, i - 1);
        var o := Offset(parts[1..], sep, i - 1);
        assert parts[1..][i - 1] == parts[i];
        assert Offset(parts, sep, i) == |head| + o;
        SliceRight(head, rest, o, o + |parts[i]|);
        if i + 1 < |parts| {
          SliceRight(head, rest, o + |parts[i]|, o + |parts[i]| + |sep|);
        }
      }
    }
  }
}
