/** The class autoloader (includes/class-autoloader.php): the path computation
    of autoload_classes. Instead of handing the path to include_file the model
    returns it, or None when the class is not one of the plugin's. */
module Autoloader {
  import opened Php

  /** explode(sep, s): the pieces between the occurrences of sep, in order; at
      least one piece, the empty string giving [""]. */
  function Explode(s: string, sep: char): (parts: seq<string>)
    ensures |parts| >= 1
    decreases |s|
  {
    if s == [] then [""]
    else
      var rest := Explode(s[1..], sep);
      if s[0] == sep then [""] + rest else [[s[0]] + rest[0]] + rest[1..]
  }

  /** implode(sep, parts), the partner of Explode. */
  function Implode(parts: seq<string>, sep: char): string
    requires |parts| >= 1
    decreases |parts|
  {
    if |parts| == 1 then parts[0] else parts[0] + [sep] + Implode(parts[1..], sep)
  }

  /** No piece contains the separator. */
  lemma {:induction false} ExplodeSeparatorFree(s: string, sep: char)
    ensures forall i | 0 <= i < |Explode(s, sep)| :: sep !in Explode(s, sep)[i]
    decreases |s|
  {
    if s != [] {
      ExplodeSeparatorFree(s[1..], sep);
      var rest := Explode(s[1..], sep);
      if s[0] != sep {
        var parts := Explode(s, sep);
        forall i | 0 <= i < |parts| ensures sep !in parts[i] {
          if i == 0 {
            assert parts[0] == [s[0]] + rest[0];
          } else {
            assert parts[i] == rest[i];
          }
        }
      }
    }
  }

  /** Gluing the pieces back together with the separator gives the input. */
  lemma {:induction false} ImplodeExplode(s: string, sep: char)
    ensures Implode(Explode(s, sep), sep) == s
    decreases |s|
  {
    if s != [] {
      ImplodeExplode(s[1..], sep);
      var rest := Explode(s[1..], sep);
      if s[0] == sep {
        assert ([""] + rest)[1..] == rest;
        assert s == [sep] + s[1..];
      } else {
        var parts := [[s[0]] + rest[0]] + rest[1..];
        if |rest| == 1 {
          assert s == [s[0]] + s[1..];
        } else {
          assert parts[1..] == rest[1..];
          assert Implode(rest, sep) == rest[0] + [sep] + Implode(rest[1..], sep);
          assert s == [s[0]] + s[1..];
        }
      }
    }
  }

  lemma {:induction false} ExplodeSingle(p: string, sep: char)
    requires sep !in p
    ensures Explode(p, sep) == [p]
    decreases |p|
  {
    if p != [] {
      assert p[0] in p;
      assert forall c | c in p[1..] :: c in p;
      ExplodeSingle(p[1..], sep);
      assert [p[0]] + p[1..] == p;
    }
  }

  /** A first piece free of the separator splits off the front. */
  lemma {:induction false} ExplodePrefix(p: string, sep: char, r: string)
    requires sep !in p
    ensures Explode(p + [sep] + r, sep) == [p] + Explode(r, sep)
    decreases |p|
  {
    var s := p + [sep] + r;
    if p == [] {
      assert s[0] == sep && s[1..] == r;
    } else {
      assert p[0] in p;
      assert forall c | c in p[1..] :: c in p;
      ExplodePrefix(p[1..], sep, r);
      assert s[0] == p[0] && s[1..] == p[1..] + [sep] + r;
      assert [p[0]] + p[1..] == p;
    }
  }

  // ---------------------------------------------------------------------------
  // One segment

  /** strtolower then str_ireplace('_', '-'): ASCII letters lowered and every
      underscore turned into a dash. */
  function Normalize(seg: string): (r: string)
    ensures |r| == |seg|
    ensures forall i | 0 <= i < |seg| :: r[i] == (if seg[i] == '_' then '-' else AsciiLower(seg[i]))
  {
    seq(|seg|, i requires 0 <= i < |seg| => if seg[i] == '_' then '-' else AsciiLower(seg[i]))
  }

  /** What a segment other than the first and the last adds to the namespace
      (lines 42-44): nothing for "elasticsync", otherwise itself and a '/'. */
  function Dir(seg: string): string
  {
    if Normalize(seg) == "elasticsync" then "" else Normalize(seg) + "/"
  }

  /** The images of the segments under f, concatenated in order. */
  function Concat(f: string -> string, segs: seq<string>): string
    decreases |segs|
  {
    if segs == [] then "" else f(segs[0]) + Concat(f, segs[1..])
  }

  /** The namespace of a run of segments. */
  function Dirs(segs: seq<string>): string
  {
    Concat(Dir, segs)
  }

  /** The namespace built by the loop: the segments strictly between the first
      and the last. */
  function Namespace(parts: seq<string>): string
  {
    if |parts| >= 2 then Dirs(parts[1..|parts| - 1]) else ""
  }

  /** The file name built from the last segment. A single segment leaves the
      file name unassigned, and an unassigned variable interpolates as "". */
  function FileName(parts: seq<string>): string
  {
    if |parts| >= 2 then "class-" + Normalize(parts[|parts| - 1]) + ".php" else ""
  }

  /** The path autoload_classes would include, or None when it bails. */
  function ClassPath(name: string): (r: Option<string>)
    ensures r.None? <==> !Contains(name, "ElasticSync")
  {
    if !Contains(name, "ElasticSync") then None
    else
      var parts := Explode(name, '\\');
      Some("includes/" + Trailingslashit(Namespace(parts)) + FileName(parts))
  }

  /** autoload_classes(class_name) up to the call of include_file. */
  method AutoloadClasses(className: string) returns (filepath: Option<string>)
    ensures filepath == ClassPath(className)
  {
    if !Contains(className, "ElasticSync") {
      return None;
    }
    var parts := Explode(className, '\\');
    var count := |parts|;
    var namespace := "";
    var filename := "";
    var i := count - 1;
    while i > 0
      invariant 0 <= i <= count - 1
      invariant i < count - 1 ==> namespace == Dirs(parts[i + 1..count - 1])
      invariant i == count - 1 ==> namespace == ""
      invariant filename == (if i < count - 1 then FileName(parts) else "")
      decreases i
    {
      var current := Normalize(parts[i]);
      if count - 1 == i {
        filename := "class-" + current + ".php";
      } else if current != "elasticsync" {
        assert parts[i..count - 1][1..] == parts[i + 1..count - 1];
        namespace := current + "/" + namespace;
      } else {
        assert parts[i..count - 1][1..] == parts[i + 1..count - 1];
      }
      i := i - 1;
    }
    filepath := Some("includes/" + Trailingslashit(namespace) + filename);
  }

  // ---------------------------------------------------------------------------
  // Properties of the path

  /** Concatenating over two runs is concatenating over each, in order. */
  lemma {:induction false} ConcatAppend(f: string -> string, a: seq<string>, b: seq<string>)
    ensures Concat(f, a + b) == Concat(f, a) + Concat(f, b)
    decreases |a|
  {
    if a != [] {
      ConcatAppend(f, a[1..], b);
      assert (a + b)[0] == a[0] && (a + b)[1..] == a[1..] + b;
    } else {
      assert a + b == b;
    }
  }

  /** The namespace of two runs is the namespace of the first followed by that
      of the second: segments keep their order. */
  lemma DirsAppend(a: seq<string>, b: seq<string>)
    ensures Dirs(a + b) == Dirs(a) + Dirs(b)
  {
    ConcatAppend(Dir, a, b);
  }

  /** Segments spelled "elasticsync" in any case, with '_' or '-' in no place,
      contribute nothing; any other segment contributes itself and a '/'. */
  lemma DirOfSegment(seg: string)
    ensures Normalize(seg) == "elasticsync" ==> Dir(seg) == ""
    ensures Normalize(seg) != "elasticsync" ==> Dir(seg) == Normalize(seg) + "/"
    ensures Dirs([seg]) == Dir(seg)
  {
    assert [seg][1..] == [];
    assert Concat(Dir, [seg]) == Dir(seg) + Concat(Dir, []);
  }

  /** A path is produced for a class of the plugin: "includes/", the namespace
      with one trailing slash, then "class-" + the normalised last segment +
      ".php". */
  lemma PathShape(name: string)
    requires Contains(name, "ElasticSync")
    requires |Explode(name, '\\')| >= 2
    ensures var parts := Explode(name, '\\');
            && ClassPath(name).Some?
            && StartsWith(ClassPath(name).value, "includes/")
            && EndsWith(ClassPath(name).value, "/class-" + Normalize(parts[|parts| - 1]) + ".php")
  {
    var parts := Explode(name, '\\');
    Framed("includes/", Trailingslashit(Namespace(parts)), FileName(parts));
    assert "/" + FileName(parts) == "/class-" + Normalize(parts[|parts| - 1]) + ".php";
  }

  predicate EndsWith(s: string, suffix: string)
  {
    |suffix| <= |s| && s[|s| - |suffix|..] == suffix
  }

  lemma Framed(a: string, t: string, f: string)
    requires |t| >= 1 && t[|t| - 1] == '/'
    ensures StartsWith(a + t + f, a) && EndsWith(a + t + f, "/" + f)
  {
    var s := a + t + f;
    assert s[|s| - |f| - 1] == '/';
    assert s[|s| - |f| - 1..] == "/" + f;
    assert s[..|a|] == a;
  }

  /** With only a first and a last segment the namespace is empty and the path
      has a double slash after "includes". */
  lemma EmptyNamespace(name: string)
    requires Contains(name, "ElasticSync")
    requires |Explode(name, '\\')| == 2
    ensures ClassPath(name) == Some("includes//" + FileName(Explode(name, '\\')))
  {
    var parts := Explode(name, '\\');
    assert parts[1..1] == [];
    assert Namespace(parts) == "";
    assert Trailingslashit("") == "/";
    assert "includes/" + "/" + FileName(parts) == "includes//" + FileName(parts);
  }

  /** The first segment never contributes: two names that differ only there map
      to the same path. */
  lemma FirstSegmentIgnored(p: string, q: string, r: string)
    requires '\\' !in p && '\\' !in q
    requires Contains(r, "ElasticSync")
    ensures ClassPath(p + "\\" + r).Some?
    ensures ClassPath(p + "\\" + r) == ClassPath(q + "\\" + r)
  {
    PathOfTail(p, r);
    PathOfTail(q, r);
    var e := Explode(r, '\\');
    AfterFirst(p, e);
    AfterFirst(q, e);
  }

  /** Namespace and file name ignore the first segment. */
  lemma AfterFirst(p: string, e: seq<string>)
    requires |e| >= 1
    ensures Namespace([p] + e) == Dirs(e[..|e| - 1])
    ensures FileName([p] + e) == "class-" + Normalize(e[|e| - 1]) + ".php"
  {
    var x := [p] + e;
    assert x[1..|x| - 1] == e[..|e| - 1];
    assert x[|x| - 1] == e[|e| - 1];
  }

  /** The path of a name whose first segment is split off. */
  lemma PathOfTail(p: string, r: string)
    requires '\\' !in p
    requires Contains(r, "ElasticSync")
    ensures var parts := [p] + Explode(r, '\\');
            ClassPath(p + "\\" + r) == Some("includes/" + Trailingslashit(Namespace(parts)) + FileName(parts))
  {
    ContainsSuffix(p + "\\", r);
    ExplodePrefix(p, '\\', r);
  }

  lemma ContainsSuffix(a: string, r: string)
    requires Contains(r, "ElasticSync")
    ensures Contains(a + r, "ElasticSync")
  {
    var i :| 0 <= i <= |r| - 11 && OccursAt(r, "ElasticSync", i);
    assert (a + r)[|a| + i..|a| + i + 11] == r[i..i + 11];
    assert OccursAt(a + r, "ElasticSync", |a| + i);
  }

  /** A namespace made of non-empty segments without '/' already ends in exactly
      one slash, so trailingslashit leaves it alone. */
  lemma {:induction false} DirsEnd(segs: seq<string>)
    requires forall i | 0 <= i < |segs| :: segs[i] != "" && '/' !in segs[i] && '\\' !in segs[i]
    requires Dirs(segs) != ""
    ensures |Dirs(segs)| >= 2 && Dirs(segs)[|Dirs(segs)| - 1] == '/'
    ensures Dirs(segs)[|Dirs(segs)| - 2] != '/' && Dirs(segs)[|Dirs(segs)| - 2] != '\\'
    decreases |segs|
  {
    var d, rest := Dir(segs[0]), Dirs(segs[1..]);
    if rest != "" {
      DirsEnd(segs[1..]);
      assert Dirs(segs) == d + rest;
    } else {
      var s := segs[0];
      assert s[|s| - 1] in s;
      assert Dirs(segs) == Normalize(s) + "/";
    }
  }

  /** For such segments the path is "includes/" + namespace + file name. */
  lemma PlainNamespace(name: string)
    requires Contains(name, "ElasticSync")
    requires var parts := Explode(name, '\\');
             forall i | 1 <= i < |parts| - 1 :: parts[i] != "" && '/' !in parts[i]
    requires Namespace(Explode(name, '\\')) != ""
    ensures var parts := Explode(name, '\\');
            ClassPath(name) == Some("includes/" + Namespace(parts) + FileName(parts))
  {
    var parts := Explode(name, '\\');
    ExplodeSeparatorFree(name, '\\');
    var mid := parts[1..|parts| - 1];
    assert forall i | 0 <= i < |mid| :: mid[i] == parts[i + 1];
    DirsEnd(mid);
    TrailingslashitKeeps(Namespace(parts));
  }

  // ---------------------------------------------------------------------------
  // The repository's own classes

  /** A name of three segments whose middle one is kept: the middle segment
      becomes the directory below includes/. */
  lemma ThreeSegments(a: string, b: string, c: string)
    requires '\\' !in a && '\\' !in b && '\\' !in c
    requires Contains(a, "ElasticSync")
    requires b != "" && '/' !in b && Normalize(b) != "elasticsync"
    ensures ClassPath(a + "\\" + b + "\\" + c)
            == Some("includes/" + Normalize(b) + "/" + "class-" + Normalize(c) + ".php")
  {
    ThreeParts(a, b, c);
    MiddleKept(a, b, c);
    var ns := Normalize(b) + "/";
    assert "includes/" + ns + ("class-" + Normalize(c) + ".php")
        == "includes/" + Normalize(b) + "/" + "class-" + Normalize(c) + ".php";
  }

  lemma ThreeParts(a: string, b: string, c: string)
    requires '\\' !in a && '\\' !in b && '\\' !in c
    requires Contains(a, "ElasticSync")
    ensures Contains(a + "\\" + b + "\\" + c, "ElasticSync")
    ensures Explode(a + "\\" + b + "\\" + c, '\\') == [a, b, c]
  {
    var name := a + "\\" + b + "\\" + c;
    var tail := b + "\\" + c;
    assert name == a + "\\" + tail;
    var i :| 0 <= i <= |a| - 11 && OccursAt(a, "ElasticSync", i);
    assert name[i..i + 11] == a[i..i + 11];
    assert OccursAt(name, "ElasticSync", i);
    ExplodePrefix(a, '\\', tail);
    ExplodePrefix(b, '\\', c);
    ExplodeSingle(c, '\\');
  }

  lemma MiddleKept(a: string, b: string, c: string)
    requires b != "" && '/' !in b && '\\' !in b && Normalize(b) != "elasticsync"
    ensures Namespace([a, b, c]) == Normalize(b) + "/"
    ensures Trailingslashit(Normalize(b) + "/") == Normalize(b) + "/"
    ensures FileName([a, b, c]) == "class-" + Normalize(c) + ".php"
  {
    var parts := [a, b, c];
    assert parts[1..2] == [b];
    DirOfSegment(b);
    var ns := Normalize(b) + "/";
    var last := b[|b| - 1];
    assert last in b;
    assert ns[|ns| - 2] == (if last == '_' then '-' else AsciiLower(last));
    TrailingslashitKeeps(ns);
  }

  lemma NormalizeSync()
    ensures Normalize("Sync") == "sync" && Normalize("Post") == "post"
  {
  }

  lemma NormalizeElasticsearch()
    ensures Normalize("Elasticsearch") == "elasticsearch" && Normalize("Request") == "request"
  {
  }

  /** The three segments of ElasticSync\Sync\Post meet the conditions of
      ThreeSegments. */
  lemma SyncPostSegments()
    ensures '\\' !in "ElasticSync" && '\\' !in "Sync" && '\\' !in "Post"
    ensures Contains("ElasticSync", "ElasticSync")
    ensures "Sync" != "" && '/' !in "Sync" && Normalize("Sync") != "elasticsync"
    ensures Normalize("Sync") == "sync" && Normalize("Post") == "post"
  {
    assert OccursAt("ElasticSync", "ElasticSync", 0);
    NormalizeSync();
  }

  lemma RequestSegments()
    ensures '\\' !in "ElasticSync" && '\\' !in "Elasticsearch" && '\\' !in "Request"
    ensures Contains("ElasticSync", "ElasticSync")
    ensures "Elasticsearch" != "" && '/' !in "Elasticsearch" && Normalize("Elasticsearch") != "elasticsync"
    ensures Normalize("Elasticsearch") == "elasticsearch" && Normalize("Request") == "request"
  {
    assert OccursAt("ElasticSync", "ElasticSync", 0);
    NormalizeElasticsearch();
  }

  lemma SyncPostParts()
    ensures ClassPath("ElasticSync" + "\\" + "Sync" + "\\" + "Post")
            == Some("includes/" + Normalize("Sync") + "/" + "class-" + Normalize("Post") + ".php")
  {
    SyncPostSegments();
    ThreeSegments("ElasticSync", "Sync", "Post");
  }

  lemma SyncPostFile()
    ensures "includes/" + "sync" + "/" + "class-" + "post" + ".php" == "includes/sync/class-post.php"
  {
  }

  lemma SyncPostName()
    ensures "ElasticSync" + "\\" + "Sync" + "\\" + "Post" == "ElasticSync\\Sync\\Post"
  {
  }

  lemma SyncPostJoined()
    ensures ClassPath("ElasticSync" + "\\" + "Sync" + "\\" + "Post") == Some("includes/sync/class-post.php")
  {
    SyncPostParts();
    SyncPostSegments();
    SyncPostFile();
  }

  /** ElasticSync\Sync\Post is found at includes/sync/class-post.php. */
  lemma SyncPostPath()
    ensures ClassPath("ElasticSync\\Sync\\Post") == Some("includes/sync/class-post.php")
  {
    SyncPostJoined();
    SyncPostName();
  }

  lemma RequestParts()
    ensures ClassPath("ElasticSync" + "\\" + "Elasticsearch" + "\\" + "Request")
            == Some("includes/" + Normalize("Elasticsearch") + "/" + "class-" + Normalize("Request") + ".php")
  {
    RequestSegments();
    ThreeSegments("ElasticSync", "Elasticsearch", "Request");
  }

  lemma RequestFile()
    ensures "includes/" + "elasticsearch" + "/" + "class-" + "request" + ".php"
            == "includes/elasticsearch/class-request.php"
  {
  }

  lemma RequestName()
    ensures "ElasticSync" + "\\" + "Elasticsearch" + "\\" + "Request" == "ElasticSync\\Elasticsearch\\Request"
  {
  }

  lemma RequestJoined()
    ensures ClassPath("ElasticSync" + "\\" + "Elasticsearch" + "\\" + "Request")
            == Some("includes/elasticsearch/class-request.php")
  {
    RequestParts();
    RequestSegments();
    RequestFile();
  }

  /** ElasticSync\Elasticsearch\Request is found at
      includes/elasticsearch/class-request.php. */
  lemma RequestPath()
    ensures ClassPath("ElasticSync\\Elasticsearch\\Request") == Some("includes/elasticsearch/class-request.php")
  {
    RequestJoined();
    RequestName();
  }
}
