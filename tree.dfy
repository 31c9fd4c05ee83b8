/** The asset directory as an in-memory tree, and the regular files a
    recursive pre-order descent of it meets. */
module Tree {
  import opened Hex

  /** An entry of a directory listing: a regular file with its bytes, or a
      directory with its own entries in listing order. */
  datatype Node = File(name: string, content: seq<byte>) | Dir(name: string, children: seq<Node>)

  /** A regular file as the walk meets it: the names from the asset root down
      to it, and its bytes. */
  datatype Asset = Asset(segments: seq<string>, content: seq<byte>)

  /** The regular files under `entries`, in pre-order: each entry in listing
      order, a directory's files where the directory stands. `path` holds the
      names from the asset root to the directory being listed. */
  function Leaves(entries: seq<Node>, path: seq<string>): seq<Asset>
    decreases entries
  {
    if entries == [] then []
    else
      (match entries[0]
         case File(n, c) => [Asset(path + [n], c)]
         case Dir(n, ch) => Leaves(ch, path + [n]))
      + Leaves(entries[1..], path)
  }

  /** The number of regular files under `entries`; directories count nothing. */
  function FileCount(entries: seq<Node>): nat
    decreases entries
  {
    if entries == [] then 0
    else
      (match entries[0]
         case File(_, _) => 1
         case Dir(_, ch) => FileCount(ch))
      + FileCount(entries[1..])
  }

  /** `rel` names, from the directory listed by `entries`, a regular file
      holding `content`: a chain of directories ending in a file, each found
      by name among the entries of the one before. */
  predicate Reaches(entries: seq<Node>, rel: seq<string>, content: seq<byte>)
    decreases entries
  {
    entries != [] && |rel| >= 1 &&
    ((entries[0].name == rel[0] &&
      match entries[0]
      case File(_, c) => |rel| == 1 && c == content
      case Dir(_, ch) => Reaches(ch, rel[1..], content))
     || Reaches(entries[1..], rel, content))
  }

  /** Names are distinct among the entries of every directory, as a real
      filesystem guarantees. */
  predicate DistinctNames(entries: seq<Node>)
    decreases entries
  {
    (forall i, j :: 0 <= i < j < |entries| ==> entries[i].name != entries[j].name) &&
    forall k :: 0 <= k < |entries| ==> (entries[k].Dir? ==> DistinctNames(entries[k].children))
  }

  /** No two assets of the list share a path. */
  predicate DistinctPaths(assets: seq<Asset>)
  {
    forall i, j :: 0 <= i < j < |assets| ==> assets[i].segments != assets[j].segments
  }

  /** Listing two runs of entries one after the other yields their files one
      after the other. */
  lemma {:induction false} LeavesAppend(a: seq<Node>, b: seq<Node>, path: seq<string>)
    ensures Leaves(a + b, path) == Leaves(a, path) + Leaves(b, path)
    decreases a
  {
    if a == [] {
      assert a + b == b;
    } else {
      assert (a + b)[0] == a[0] && (a + b)[1..] == a[1..] + b;
      LeavesAppend(a[1..], b, path);
    }
  }

  /** One asset per regular file. */
  lemma {:induction false} LeavesCount(entries: seq<Node>, path: seq<string>)
    ensures |Leaves(entries, path)| == FileCount(entries)
    decreases entries
  {
    if entries != [] {
      LeavesCount(entries[1..], path);
      match entries[0]
      case File(_, _) =>
      case Dir(n, ch) => LeavesCount(ch, path + [n]);
    }
  }

  /** Every asset lies under the directory being listed. */
  lemma {:induction false} LeavesUnder(entries: seq<Node>, path: seq<string>)
    ensures forall a :: a in Leaves(entries, path) ==>
              |a.segments| > |path| && a.segments[..|path|] == path
    decreases entries
  {
    if entries != [] {
      LeavesUnder(entries[1..], path);
      match entries[0]
      case File(_, _) =>
      case Dir(n, ch) =>
        LeavesUnder(ch, path + [n]);
        forall a | a in Leaves(ch, path + [n])
          ensures |a.segments| > |path| && a.segments[..|path|] == path
        {
          assert a.segments[..|path|] == a.segments[..|path| + 1][..|path|];
        }
    }
  }

  /** The assets are exactly the regular files of the tree: one shows up with
      path `path + rel` and bytes `content` if and only if `rel` reaches a file
      holding `content`. */
  lemma {:induction false} LeavesAreFiles(entries: seq<Node>, path: seq<string>, rel: seq<string>, content: seq<byte>)
    ensures Asset(path + rel, content) in Leaves(entries, path) <==> Reaches(entries, rel, content)
    decreases entries
  {
    if entries == [] {
      return;
    }
    var a := Asset(path + rel, content);
    var rest := entries[1..];
    LeavesAreFiles(rest, path, rel, content);
    match entries[0]
    case File(n, c) =>
      assert Leaves(entries, path) == [Asset(path + [n], c)] + Leaves(rest, path);
      assert a == Asset(path + [n], c) <==> |rel| == 1 && rel[0] == n && c == content by {
        if a == Asset(path + [n], c) {
          assert rel == (path + rel)[|path|..] == (path + [n])[|path|..] == [n];
        }
      }
    case Dir(n, ch) =>
      assert Leaves(entries, path) == Leaves(ch, path + [n]) + Leaves(rest, path);
      LeavesUnder(ch, path + [n]);
      if |rel| >= 1 && rel[0] == n {
        assert path + rel == (path + [n]) + rel[1..];
        LeavesAreFiles(ch, path + [n], rel[1..], content);
      } else if |rel| >= 1 {
        UnderName(entries[0], path);
        assert Leaves([entries[0]], path) == Leaves(ch, path + [n]);
        assert (path + rel)[|path|] == rel[0];
      }
  }

  /** A reached file runs through one of the listed names. */
  lemma {:induction false} ReachesNamed(entries: seq<Node>, rel: seq<string>, content: seq<byte>)
    requires Reaches(entries, rel, content)
    ensures |rel| >= 1 && exists k :: 0 <= k < |entries| && entries[k].name == rel[0]
    decreases entries
  {
    if entries[0].name != rel[0] {
      ReachesNamed(entries[1..], rel, content);
      var k :| 0 <= k < |entries[1..]| && entries[1..][k].name == rel[0];
      assert entries[k + 1].name == rel[0];
    }
  }

  /** Distinct names among the entries stay distinct among the later ones. */
  lemma DistinctNamesRest(entries: seq<Node>)
    requires entries != [] && DistinctNames(entries)
    ensures DistinctNames(entries[1..])
    ensures forall k :: 0 <= k < |entries[1..]| ==> entries[1..][k].name != entries[0].name
  {
    var rest := entries[1..];
    forall i, j | 0 <= i < j < |rest| ensures rest[i].name != rest[j].name {
      assert rest[i] == entries[i + 1] && rest[j] == entries[j + 1];
    }
    forall k | 0 <= k < |rest| && rest[k].Dir? ensures DistinctNames(rest[k].children) {
      assert rest[k] == entries[k + 1];
    }
    forall k | 0 <= k < |rest| ensures rest[k].name != entries[0].name {
      assert rest[k] == entries[k + 1];
    }
  }

  /** The assets under one entry all run through its name. */
  lemma UnderName(e: Node, path: seq<string>)
    ensures forall a :: a in Leaves([e], path) ==> |a.segments| > |path| && a.segments[|path|] == e.name
  {
    LeavesUnder([e], path);
    match e
    case File(n, c) =>
      assert Leaves([e], path) == [Asset(path + [n], c)];
    case Dir(n, ch) =>
      assert Leaves([e], path) == Leaves(ch, path + [n]);
      LeavesUnder(ch, path + [n]);
      forall a | a in Leaves([e], path) ensures a.segments[|path|] == n {
        assert a.segments[..|path| + 1][|path|] == n;
      }
  }

  /** The assets under a listing run through one of its names only. */
  lemma AvoidsName(entries: seq<Node>, path: seq<string>, n: string)
    requires forall k :: 0 <= k < |entries| ==> entries[k].name != n
    ensures forall b :: b in Leaves(entries, path) ==> |b.segments| > |path| && b.segments[|path|] != n
  {
    LeavesUnder(entries, path);
    forall b | b in Leaves(entries, path) ensures b.segments[|path|] != n {
      var rel := b.segments[|path|..];
      assert b.segments == path + rel;
      LeavesAreFiles(entries, path, rel, b.content);
      ReachesNamed(entries, rel, b.content);
    }
  }

  /** Two path-distinct lists stay path-distinct side by side when they
      disagree at some position of every path. */
  lemma DistinctConcat(a: seq<Asset>, b: seq<Asset>, at: nat, n: string)
    requires DistinctPaths(a) && DistinctPaths(b)
    requires forall x :: x in a ==> |x.segments| > at && x.segments[at] == n
    requires forall y :: y in b ==> |y.segments| > at && y.segments[at] != n
    ensures DistinctPaths(a + b)
  {
    var all := a + b;
    forall i, j | 0 <= i < j < |all| ensures all[i].segments != all[j].segments {
      if j < |a| {
        assert all[i] == a[i] && all[j] == a[j];
      } else if i >= |a| {
        assert all[i] == b[i - |a|] && all[j] == b[j - |a|];
      } else {
        assert all[i] in a && all[j] in b;
      }
    }
  }

  /** In a tree whose directories hold distinct names, no two assets share a
      path. */
  lemma {:induction false} LeavesDistinct(entries: seq<Node>, path: seq<string>)
    requires DistinctNames(entries)
    ensures DistinctPaths(Leaves(entries, path))
    decreases entries
  {
    if entries != [] {
      DistinctNamesRest(entries);
      LeavesDistinct(entries[1..], path);
      LeavesAppend([entries[0]], entries[1..], path);
      assert [entries[0]] + entries[1..] == entries;
      match entries[0] {
        case File(n, c) =>
          assert Leaves([entries[0]], path) == [Asset(path + [n], c)];
        case Dir(n, ch) =>
          assert Leaves([entries[0]], path) == Leaves(ch, path + [n]);
          LeavesDistinct(ch, path + [n]);
      }
      UnderName(entries[0], path);
      AvoidsName(entries[1..], path, entries[0].name);
      DistinctConcat(Leaves([entries[0]], path), Leaves(entries[1..], path), |path|, entries[0].name);
    }
  }

  /** No name anywhere in the tree holds the character `c`. */
  predicate NamesAvoid(entries: seq<Node>, c: char)
    decreases entries
  {
    forall k :: 0 <= k < |entries| ==>
      c !in entries[k].name && (entries[k].Dir? ==> NamesAvoid(entries[k].children, c))
  }

  /** When no name of the tree, nor of the path to it, holds `c`, no segment
      of any asset does. */
  lemma {:induction false} LeavesAvoid(entries: seq<Node>, path: seq<string>, c: char)
    requires NamesAvoid(entries, c)
    requires forall k :: 0 <= k < |path| ==> c !in path[k]
    ensures forall a, k :: a in Leaves(entries, path) && 0 <= k < |a.segments| ==> c !in a.segments[k]
    decreases entries
  {
    if entries != [] {
      var rest := entries[1..];
      assert NamesAvoid(rest, c) by {
        forall k | 0 <= k < |rest| ensures c !in rest[k].name && (rest[k].Dir? ==> NamesAvoid(rest[k].children, c)) {
          assert rest[k] == entries[k + 1];
        }
      }
      LeavesAvoid(rest, path, c);
      var here := path + [entries[0].name];
      assert forall k :: 0 <= k < |here| ==> c !in here[k];
      match entries[0]
      case File(n, content) =>
        assert Leaves(entries, path) == [Asset(here, content)] + Leaves(rest, path);
      case Dir(n, ch) =>
        assert Leaves(entries, path) == Leaves(ch, here) + Leaves(rest, path);
        LeavesAvoid(ch, here, c);
    }
  }
}
