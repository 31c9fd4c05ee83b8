/** One row of the seed script per regular file: its web path, its content
    type, its ETag and its bytes as a `bytea` literal. */
module Records {
  import opened Wrappers
  import opened Strings
  import opened Hex
  import opened Tree

  /** An MD5 digest: sixteen bytes. */
  type Digest = d: seq<byte> | |d| == 16
    witness [0, 0, 0, 0, 0, 0, 0, 0, 0, 0, 0, 0, 0, 0, 0, 0]

  /** What the walk takes from its host: the path separator, the MIME table
      (`None` where the table has no entry) and the MD5 digest. */
  datatype Host = Host(sep: char, lookup: seq<string> -> Option<string>, md5: seq<byte> -> Digest)

  const OctetStream: string := "application/octet-stream"

  /** The path of a file relative to the asset root, as the host writes it:
      the names from the root joined by the host separator. */
  function HostRelative(segments: seq<string>, sep: char): string
  {
    Join(segments, [sep])
  }

  /** The web path: the relative path split on the host separator, re-joined
      with `/`, behind a leading `/`. */
  function WebPathOf(segments: seq<string>, sep: char): (w: string)
    ensures |w| >= 1 && w[0] == '/'
  {
    "/" + Join(Split(HostRelative(segments, sep), sep), "/")
  }

  /** The web path the way the walk builds it, reassigning as it goes; the
      guard that adds a second `/` never fires. */
  method WebPath(segments: seq<string>, sep: char) returns (webPath: string)
    ensures webPath == WebPathOf(segments, sep)
    ensures StartsWith(webPath, "/")
  {
    var relativePath := HostRelative(segments, sep);
    relativePath := Join(Split(relativePath, sep), "/");
    webPath := "/" + relativePath;
    if !StartsWith(webPath, "/") {
      webPath := "/" + webPath;
    }
  }

  /** Normalising replaces every host separator by `/` and touches nothing else. */
  lemma WebPathIsReplace(segments: seq<string>, sep: char)
    ensures WebPathOf(segments, sep) == "/" + Replace(HostRelative(segments, sep), sep, '/')
  {
    JoinSplitIsReplace(HostRelative(segments, sep), sep, '/');
  }

  /** After the leading `/`, a web path holds no host separator, unless that
      separator is `/` itself. */
  lemma WebPathHasNoSeparator(segments: seq<string>, sep: char)
    requires sep != '/'
    ensures sep !in WebPathOf(segments, sep)
  {
    WebPathIsReplace(segments, sep);
    ReplaceRemoves(HostRelative(segments, sep), sep, '/');
  }

  /** Any other character is in the web path exactly when some name holds
      it: with `/` as the separator a `\` in a file name survives. */
  lemma WebPathKeeps(segments: seq<string>, sep: char, e: char)
    requires e != sep && e != '/'
    ensures (e in WebPathOf(segments, sep)) <==> exists k :: 0 <= k < |segments| && e in segments[k]
  {
    WebPathIsReplace(segments, sep);
    ReplaceKeeps(HostRelative(segments, sep), sep, '/', e);
    JoinChars(segments, sep, e);
  }

  /** When no name holds the host separator, the web path is `/` followed by
      the names joined with `/`. */
  lemma WebPathOfNames(segments: seq<string>, sep: char)
    requires forall k :: 0 <= k < |segments| ==> sep !in segments[k]
    ensures WebPathOf(segments, sep) == "/" + Join(segments, "/")
  {
    if |segments| == 0 {
    } else {
      SplitJoin(segments, sep);
    }
  }

  /** Distinct name paths give distinct web paths when no name holds the
      host separator or `/`. */
  lemma WebPathInjective(a: seq<string>, b: seq<string>, sep: char)
    requires |a| >= 1 && |b| >= 1
    requires forall k :: 0 <= k < |a| ==> sep !in a[k] && '/' !in a[k]
    requires forall k :: 0 <= k < |b| ==> sep !in b[k] && '/' !in b[k]
    requires a != b
    ensures WebPathOf(a, sep) != WebPathOf(b, sep)
  {
    WebPathOfNames(a, sep);
    WebPathOfNames(b, sep);
    if WebPathOf(a, sep) == WebPathOf(b, sep) {
      assert Join(a, "/") == WebPathOf(a, sep)[1..] == WebPathOf(b, sep)[1..] == Join(b, "/");
      JoinInjective(a, b, '/');
    }
  }

  /** The type the MIME table gives, or `application/octet-stream` when it
      gives none; an empty answer is falsy, so it falls back too. */
  function ContentType(looked: Option<string>): (t: string)
    ensures t != ""
    ensures looked.Some? && looked.value != "" ==> t == looked.value
    ensures looked.None? || looked.value == "" ==> t == OctetStream
  {
    match looked
    case Some(found) => if found != "" then found else OctetStream
    case None => OctetStream
  }

  /** The ETag: the digest of the bytes in lowercase hex. */
  function Etag(content: seq<byte>, md5: seq<byte> -> Digest): string
  {
    Encode(md5(content))
  }

  /** An ETag is 32 lowercase hex digits and reads back as the digest. */
  lemma EtagShape(content: seq<byte>, md5: seq<byte> -> Digest)
    ensures |Etag(content, md5)| == 32
    ensures forall k :: 0 <= k < 32 ==> IsLowerHex(Etag(content, md5)[k])
    ensures Decode(Etag(content, md5)) == Some(md5(content))
  {
    DecodeEncode(md5(content));
  }

  /** The row template, without any escaping of `'`. */
  function Row(webPath: string, contentType: string, etag: string, hexContent: string): string
  {
    "('" + webPath + "', '" + contentType + "', '" + etag + "', '" + hexContent + "')"
  }

  datatype Fields = Fields(webPath: string, contentType: string, etag: string, hexContent: string)

  /** Reads a row back into its four fields; `None` when it does not have the
      shape of the template. */
  function ParseRow(row: string): Option<Fields>
  {
    if |row| < 4 || row[..2] != "('" || row[|row| - 2..] != "')" then None
    else FieldsOf(Split(row[2..|row| - 2], '\''))
  }

  /** The four fields from the pieces between quotes, which alternate with
      the `, ` between fields. */
  function FieldsOf(parts: seq<string>): Option<Fields>
  {
    if |parts| == 7 && parts[1] == ", " && parts[3] == ", " && parts[5] == ", "
    then Some(Fields(parts[0], parts[2], parts[4], parts[6]))
    else None
  }

  /** The text between a row's outer `('` and `')`. */
  function Inner(webPath: string, contentType: string, etag: string, hexContent: string): string
  {
    webPath + "', '" + contentType + "', '" + etag + "', '" + hexContent
  }

  /** A row is `('`, its inner text and `')`. */
  lemma RowShape(webPath: string, contentType: string, etag: string, hexContent: string)
    ensures var row := Row(webPath, contentType, etag, hexContent);
      && |row| >= 4 && row[..2] == "('" && row[|row| - 2..] == "')"
      && row[2..|row| - 2] == Inner(webPath, contentType, etag, hexContent)
  {
    var row := Row(webPath, contentType, etag, hexContent);
    var inner := Inner(webPath, contentType, etag, hexContent);
    assert row == "('" + inner + "')";
  }

  /** The inner text is the fields and the `, ` between them joined by `'`. */
  lemma InnerIsJoin(webPath: string, contentType: string, etag: string, hexContent: string)
    ensures Join([webPath, ", ", contentType, ", ", etag, ", ", hexContent], "'")
         == Inner(webPath, contentType, etag, hexContent)
  {
    var q, c := "'", ", ";
    var last := [etag, c] + [hexContent];
    var middle := [contentType, c] + last;
    JoinPair(etag, c, [hexContent], q);
    JoinPair(contentType, c, last, q);
    JoinPair(webPath, c, middle, q);
    assert [webPath, c] + middle == [webPath, ", ", contentType, ", ", etag, ", ", hexContent];
    Regroup(webPath, contentType, etag, hexContent, q, c);
    assert q + c + q == "', '";
  }

  /** Moving the quotes around the `, ` in with it. */
  lemma Regroup(w: string, t: string, e: string, h: string, q: string, c: string)
    ensures w + q + c + q + (t + q + c + q + (e + q + c + q + h))
         == w + (q + c + q) + t + (q + c + q) + e + (q + c + q) + h
  {
  }

  /** A row reads back into its fields when none of them holds a `'`. */
  lemma RowRoundTrip(webPath: string, contentType: string, etag: string, hexContent: string)
    requires '\'' !in webPath && '\'' !in contentType && '\'' !in etag && '\'' !in hexContent
    ensures ParseRow(Row(webPath, contentType, etag, hexContent))
         == Some(Fields(webPath, contentType, etag, hexContent))
  {
    var parts := [webPath, ", ", contentType, ", ", etag, ", ", hexContent];
    RowShape(webPath, contentType, etag, hexContent);
    InnerIsJoin(webPath, contentType, etag, hexContent);
    SplitJoin(parts, '\'');
  }

  /** The row of one regular file. */
  function Record(a: Asset, host: Host): string
  {
    Row(WebPathOf(a.segments, host.sep), ContentType(host.lookup(a.segments)),
        Etag(a.content, host.md5), Bytea(a.content))
  }

  /** What a row holds, when its path and its type hold no `'`: the web path,
      the content type, the ETag, and a `bytea` literal that reads back as
      the file's bytes, whose digest is the ETag again. */
  lemma RecordFields(a: Asset, host: Host)
    requires forall k :: 0 <= k < |a.segments| ==> '\'' !in a.segments[k]
    requires host.sep != '\''
    requires host.lookup(a.segments).Some? ==> '\'' !in host.lookup(a.segments).value
    ensures ParseRow(Record(a, host)).Some?
    ensures var f := ParseRow(Record(a, host)).value;
      && f.webPath == WebPathOf(a.segments, host.sep)
      && f.contentType == ContentType(host.lookup(a.segments))
      && ParseBytea(f.hexContent) == Some(a.content)
      && f.etag == Etag(a.content, host.md5)
      && Decode(f.etag) == Some(host.md5(a.content))
  {
    var w := WebPathOf(a.segments, host.sep);
    var t := ContentType(host.lookup(a.segments));
    var e := Etag(a.content, host.md5);
    var h := Bytea(a.content);
    WebPathKeeps(a.segments, host.sep, '\'');
    EtagShape(a.content, host.md5);
    ByteaShape(a.content);
    assert '\'' !in h by {
      assert h[0] == '\\' && h[1] == 'x';
    }
    RowRoundTrip(w, t, e, h);
    ByteaRoundTrip(h, a.content);
  }

  /** Files with the same bytes get the same ETag and the same literal,
      wherever they lie. */
  lemma SameContentSameEtag(a: Asset, b: Asset, host: Host)
    requires a.content == b.content
    ensures Etag(a.content, host.md5) == Etag(b.content, host.md5)
    ensures Bytea(a.content) == Bytea(b.content)
  {
  }
}
