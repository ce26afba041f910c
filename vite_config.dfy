/** The `manualChunks` hook of `vite.config.js`, which names the output
    chunk of a bundled dependency after its package directory and its file:
    for `.../node_modules/pkg/dist/file.min.js` the name is `pkg-file.min`.
    Whether the module is part of the bundle (`getModuleInfo(id).isIncluded`)
    is a parameter. */
module ViteConfig {
  import opened JsString

  /** What the hook returns: nothing (`undefined`, the default chunking), a
      chunk name, or the `TypeError` thrown when `id` mentions `node_modules`
      but no `node_modules/` follows. */
  datatype Chunk = NoChunk | Named(name: string) | Throws

  /** `fl.substring(0, fl.lastIndexOf('.'))`: the file name up to its last
      `.`, or nothing for a name without one. */
  function Stem(file: string): (r: string)
    ensures '.' !in file ==> r == []
    ensures '.' in file ==> |r| < |file| && r == file[..|r|] && file[|r|] == '.' &&
                            forall j :: |r| < j < |file| ==> file[j] != '.'
  {
    var i := LastIndexOf(file, '.');
    Substring(file, 0, i)
  }

  function ManualChunks(id: string, isIncluded: bool): Chunk {
    if !isIncluded || !Includes(id, "node_modules") then NoChunk
    else
      var parts := Split(id, "node_modules/");
      if |parts| < 2 then Throws
      else Named(PackageChunkName(parts[1]))
  }

  /** The name built from the text after `node_modules/`: `el[0] + '-' +`
      the stem of `el[el.length - 1]`, with `el` its pieces between `/`. */
  function PackageChunkName(path: string): string {
    var el := Split(path, "/");
    var fl := el[|el| - 1];
    el[0] + "-" + Stem(fl)
  }

  // ---------------------------------------------------------------------------
  // A reference reading of the name, by position instead of by splitting

  /** The text between the first `node_modules/` and the next one (or the end). */
  function PackagePath(id: string): (m: string)
    requires Includes(id, "node_modules/")
    ensures IndexOf(m, "node_modules/") == -1
  {
    var rest := id[IndexOf(id, "node_modules/") + 13..];
    var j := IndexOf(rest, "node_modules/");
    if j < 0 then rest
    else
      NoOccurrenceBefore(rest, "node_modules/", j);
      rest[..j]
  }

  /** The text of `m` before its first `/`, or all of `m`. */
  function FirstSegment(m: string): (r: string)
    ensures '/' !in r && |r| <= |m| && r == m[..|r|]
    ensures |r| < |m| ==> m[|r|] == '/'
  {
    var j := IndexOf(m, "/");
    IndexOfCharAbsent(m, '/');
    if j < 0 then m
    else
      assert m[j..j + 1] == "/";
      FirstSlashBounds(m, j);
      m[..j]
  }

  lemma FirstSlashBounds(m: string, j: int)
    requires 0 <= j < |m| && m[j..j + 1] == "/"
    requires forall i :: 0 <= i < j ==> !OccursAt(m, "/", i)
    ensures m[j] == '/' && '/' !in m[..j]
  {
    forall i | 0 <= i < j ensures m[..j][i] != '/' {
      assert !OccursAt(m, "/", i);
      assert m[i..i + 1] == [m[i]];
    }
  }

  // ---------------------------------------------------------------------------
  // Properties

  /** No name is chosen exactly for a module outside the bundle or one whose
      path does not mention `node_modules`. */
  lemma NoChunkIff(id: string, isIncluded: bool)
    ensures ManualChunks(id, isIncluded) == NoChunk <==> !isIncluded || !Includes(id, "node_modules")
  {
  }

  /** The hook throws exactly for an included module that mentions
      `node_modules` without a `node_modules/`. */
  lemma ThrowsIff(id: string, isIncluded: bool)
    ensures ManualChunks(id, isIncluded) == Throws <==>
              isIncluded && Includes(id, "node_modules") && !Includes(id, "node_modules/")
  {
    SplitFront(id, "node_modules/");
  }

  /** The name is the first segment of the package path, `-`, and the last
      segment with everything from its last `.` dropped. */
  lemma ChunkName(id: string)
    requires Includes(id, "node_modules/")
    ensures var m := PackagePath(id);
            ManualChunks(id, true) == Named(FirstSegment(m) + "-" + Stem(LastPart(m, "/")))
  {
    assert "node_modules" + "/" == "node_modules/";
    IncludesPrefix(id, "node_modules", "/");
    SecondPieceIsPackagePath(id);
    NameFromSegments(PackagePath(id));
  }

  lemma NameFromSegments(m: string)
    ensures PackageChunkName(m) == FirstSegment(m) + "-" + Stem(LastPart(m, "/"))
  {
    SplitFront(m, "/");
  }

  lemma SecondPieceIsPackagePath(id: string)
    requires Includes(id, "node_modules/")
    ensures |Split(id, "node_modules/")| >= 2 && Split(id, "node_modules/")[1] == PackagePath(id)
  {
    var k := IndexOf(id, "node_modules/");
    SplitFront(id, "node_modules/");
    SplitFront(id[k + 13..], "node_modules/");
  }

  /** Only the package path counts: two module ids with the same text between
      the first and the second `node_modules/` get the same name. */
  lemma OnlyPackagePathCounts(id1: string, id2: string)
    requires Includes(id1, "node_modules/") && Includes(id2, "node_modules/")
    requires PackagePath(id1) == PackagePath(id2)
    ensures ManualChunks(id1, true) == ManualChunks(id2, true)
  {
    ChunkName(id1);
    ChunkName(id2);
  }

  /** A last segment without `.` contributes nothing after the `-`. */
  lemma NoDotEndsWithDash(id: string)
    requires Includes(id, "node_modules/")
    requires '.' !in LastPart(PackagePath(id), "/")
    ensures ManualChunks(id, true) == Named(FirstSegment(PackagePath(id)) + "-")
  {
    ChunkName(id);
    EmptyStem(LastPart(PackagePath(id), "/"), FirstSegment(PackagePath(id)) + "-");
  }

  lemma EmptyStem(file: string, prefix: string)
    requires '.' !in file
    ensures prefix + Stem(file) == prefix
  {
    assert Stem(file) == [];
  }
}
