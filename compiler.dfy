/** The build: walk the asset tree collecting one row per regular file, then
    turn the rows into the seed script, or write nothing when there are none. */
module Compiler {
  import opened Wrappers
  import opened Strings
  import opened Hex
  import opened Tree
  import opened Records

  /** The fixed start of the script: empty the table, then open one insert. */
  const Header: string :=
    "TRUNCATE TABLE web_assets;\nINSERT INTO web_assets (path, content_type, etag, content) VALUES\n"

  const RowSeparator: string := ",\n"

  /** The rows of the assets, in the same order. */
  function Rows(assets: seq<Asset>, host: Host): (rows: seq<string>)
    ensures |rows| == |assets|
  {
    if assets == [] then [] else [Record(assets[0], host)] + Rows(assets[1..], host)
  }

  /** The `k`-th row is the record of the `k`-th asset. */
  lemma {:induction false} RowsAt(assets: seq<Asset>, host: Host, k: nat)
    requires k < |assets|
    ensures Rows(assets, host)[k] == Record(assets[k], host)
  {
    if k > 0 {
      RowsAt(assets[1..], host, k - 1);
    }
  }

  /** The script written for these rows; `None` when nothing is written. */
  function Script(rows: seq<string>): Option<string>
  {
    if |rows| > 0 then Some(Header + Join(rows, RowSeparator) + ";") else None
  }

  /** The state of one build: the script text so far and the rows collected. */
  class AssetCompiler {
    const host: Host
    var sql: string
    var values: seq<string>

    constructor (host: Host)
      ensures this.host == host
      ensures sql == Header && values == []
    {
      this.host := host;
      sql := Header;
      values := [];
    }

    /** Lists `entries`, the directory `path` names, appending a row for each
        regular file and descending into each directory where it stands. */
    method WalkDir(entries: seq<Node>, path: seq<string>)
      modifies this
      ensures values == old(values) + Rows(Leaves(entries, path), host)
      ensures sql == old(sql)
      decreases entries
    {
      ghost var start := values;
      var i := 0;
      while i < |entries|
        invariant 0 <= i <= |entries|
        invariant values == start + Rows(Leaves(entries[..i], path), host)
        invariant sql == old(sql)
      {
        ghost var before := values;
        Visit(entries[i], path);
        LoopStep(start, before, values, entries, i, path, host);
        i := i + 1;
      }
      assert entries[..i] == entries;
    }

    /** Handles one entry of a listing: descends into a directory, packs a
        regular file. */
    method Visit(file: Node, path: seq<string>)
      modifies this
      ensures values == old(values) + Rows(Leaves([file], path), host)
      ensures sql == old(sql)
      decreases file
    {
      if file.Dir? {
        WalkDir(file.children, path + [file.name]);
        DirRows(file.name, file.children, path, host);
      } else {
        PackFile(file, path);
      }
    }

    /** Builds the row of one regular file, the way the walk does it inline,
        and appends it to `values`. */
    method PackFile(file: Node, path: seq<string>)
      requires file.File?
      modifies this
      ensures values == old(values) + Rows(Leaves([file], path), host)
      ensures sql == old(sql)
    {
      var name, content := file.name, file.content;
      var webPath := WebPath(path + [name], host.sep);
      var contentType := ContentType(host.lookup(path + [name]));
      var hexContent := Bytea(content);
      var etag := Etag(content, host.md5);
      FileRows(name, content, path, host, webPath, contentType, etag, hexContent);
      values := values + [Row(webPath, contentType, etag, hexContent)];
    }

    /** Completes the script when rows were collected and returns what is
        written; with no rows nothing is written and the script is left as is. */
    method Finish() returns (output: Option<string>)
      modifies this
      ensures values == old(values)
      ensures |values| > 0 ==> sql == old(sql) + Join(values, RowSeparator) + ";" && output == Some(sql)
      ensures |values| == 0 ==> sql == old(sql) && output == None
    {
      if |values| > 0 {
        sql := sql + Join(values, RowSeparator) + ";";
        output := Some(sql);
      } else {
        output := None;
      }
    }
  }

  /** The whole build over the entries of the asset root. */
  method CompileAssets(root: seq<Node>, host: Host) returns (output: Option<string>)
    ensures output == Script(Rows(Leaves(root, []), host))
    ensures output.None? <==> FileCount(root) == 0
  {
    var compiler := new AssetCompiler(host);
    compiler.WalkDir(root, []);
    assert compiler.values == Rows(Leaves(root, []), host);
    assert compiler.sql == Header;
    output := compiler.Finish();
    LeavesCount(root, []);
  }

  /** A directory entry contributes the rows of its own listing. */
  lemma DirRows(name: string, children: seq<Node>, path: seq<string>, host: Host)
    ensures Rows(Leaves([Dir(name, children)], path), host) == Rows(Leaves(children, path + [name]), host)
  {
    assert [Dir(name, children)][1..] == [];
    assert Leaves([Dir(name, children)], path) == Leaves(children, path + [name]);
  }

  /** A file entry contributes the one row built from its web path, its
      content type, its ETag and its literal. */
  lemma FileRows(name: string, content: seq<byte>, path: seq<string>, host: Host,
                 webPath: string, contentType: string, etag: string, hexContent: string)
    requires webPath == WebPathOf(path + [name], host.sep)
    requires contentType == ContentType(host.lookup(path + [name]))
    requires etag == Etag(content, host.md5) && hexContent == Bytea(content)
    ensures Rows(Leaves([File(name, content)], path), host) == [Row(webPath, contentType, etag, hexContent)]
  {
    assert [File(name, content)][1..] == [];
    assert Leaves([File(name, content)], path) == [Asset(path + [name], content)];
  }

  /** One more entry handled: its rows follow those of the entries before it. */
  lemma LoopStep(start: seq<string>, before: seq<string>, after: seq<string>,
                 entries: seq<Node>, i: nat, path: seq<string>, host: Host)
    requires i < |entries|
    requires before == start + Rows(Leaves(entries[..i], path), host)
    requires after == before + Rows(Leaves([entries[i]], path), host)
    ensures after == start + Rows(Leaves(entries[..i + 1], path), host)
  {
    StepRows(entries, i, path, host);
    AppendAssoc(start, Rows(Leaves(entries[..i], path), host), Rows(Leaves([entries[i]], path), host));
  }

  lemma AppendAssoc(a: seq<string>, b: seq<string>, c: seq<string>)
    ensures a + b + c == a + (b + c)
  {
  }

  /** The rows of one more entry follow those of the entries before it. */
  lemma StepRows(entries: seq<Node>, i: nat, path: seq<string>, host: Host)
    requires i < |entries|
    ensures Rows(Leaves(entries[..i + 1], path), host)
         == Rows(Leaves(entries[..i], path), host) + Rows(Leaves([entries[i]], path), host)
  {
    LeavesAppend(entries[..i], [entries[i]], path);
    assert entries[..i + 1] == entries[..i] + [entries[i]];
    RowsAppend(Leaves(entries[..i], path), Leaves([entries[i]], path), host);
  }

  /** Rows of concatenated asset lists are the concatenated rows. */
  lemma {:induction false} RowsAppend(a: seq<Asset>, b: seq<Asset>, host: Host)
    ensures Rows(a + b, host) == Rows(a, host) + Rows(b, host)
  {
    if a == [] {
      assert a + b == b;
    } else {
      assert (a + b)[0] == a[0] && (a + b)[1..] == a[1..] + b;
      RowsAppend(a[1..], b, host);
    }
  }

  /** The layout of a written script: the header, the `k`-th row at its place
      with `,\n` after every row but the last, and `;` at the end. */
  lemma ScriptLayout(rows: seq<string>, k: nat)
    requires k < |rows|
    ensures Script(rows).Some?
    ensures var s := Script(rows).value;
      var at := |Header| + Offset(rows, RowSeparator, k);
      && s[..|Header|] == Header
      && s[|s| - 1] == ';'
      && at + |rows[k]| < |s|
      && s[at..at + |rows[k]|] == rows[k]
      && (k + 1 < |rows| ==> at + |rows[k]| + 2 < |s| && s[at + |rows[k]|..at + |rows[k]| + 2] == RowSeparator)
      && (k + 1 == |rows| ==> at + |rows[k]| == |s| - 1)
  {
    var j := Join(rows, RowSeparator);
    JoinAt(rows, RowSeparator, k);
    var o := Offset(rows, RowSeparator, k);
    Framed(Header, j, o, o + |rows[k]|);
    if k + 1 < |rows| {
      Framed(Header, j, o + |rows[k]|, o + |rows[k]| + 2);
    }
  }

  /** A slice of the body of `head + body + ";"`, seen from the whole. */
  lemma Framed(head: string, body: string, lo: nat, hi: nat)
    requires lo <= hi <= |body|
    ensures (head + body + ";")[..|head|] == head
    ensures (head + body + ";")[|head| + lo..|head| + hi] == body[lo..hi]
  {
  }

  /** The build writes nothing exactly when the tree holds no regular file,
      and it writes one row per regular file. */
  lemma ScriptRows(root: seq<Node>, host: Host)
    ensures Script(Rows(Leaves(root, []), host)).None? <==> FileCount(root) == 0
    ensures |Rows(Leaves(root, []), host)| == FileCount(root)
  {
    LeavesCount(root, []);
  }

  /** In a tree whose directories hold distinct names and whose names hold
      neither the host separator nor `/`, the rows carry distinct web paths. */
  lemma WebPathsUnique(root: seq<Node>, host: Host)
    requires DistinctNames(root)
    requires NamesAvoid(root, host.sep) && NamesAvoid(root, '/')
    ensures var assets := Leaves(root, []);
      forall i, j :: 0 <= i < j < |assets| ==>
        WebPathOf(assets[i].segments, host.sep) != WebPathOf(assets[j].segments, host.sep)
  {
    var assets := Leaves(root, []);
    LeavesDistinct(root, []);
    LeavesAvoid(root, [], host.sep);
    LeavesAvoid(root, [], '/');
    LeavesUnder(root, []);
    forall i, j | 0 <= i < j < |assets|
      ensures WebPathOf(assets[i].segments, host.sep) != WebPathOf(assets[j].segments, host.sep)
    {
      assert assets[i] in assets && assets[j] in assets;
      WebPathInjective(assets[i].segments, assets[j].segments, host.sep);
    }
  }

  /** A root holding a single file yields a one-row script whose row carries
      `/` and the file's name, its type, its ETag and its literal. */
  lemma SingleFileScript(name: string, b: seq<byte>, host: Host)
    requires host.sep !in name
    ensures Script(Rows(Leaves([File(name, b)], []), host))
         == Some(Header + Row("/" + name, ContentType(host.lookup([name])), Etag(b, host.md5), Bytea(b)) + ";")
  {
    var a := Asset([name], b);
    assert [File(name, b)][1..] == [];
    assert [] + [name] == [name];
    assert Leaves([File(name, b)], []) == [a];
    SingleNameWebPath(name, host.sep);
    assert Rows([a], host) == [Record(a, host)];
  }

  /** A name without the separator is its own web path behind a `/`. */
  lemma SingleNameWebPath(name: string, sep: char)
    requires sep !in name
    ensures WebPathOf([name], sep) == "/" + name
  {
    WebPathOfNames([name], sep);
  }
}
