/**
 * Choosing the file to rewrite from what the bundler reports after emitting:
 * the first chunk with the configured name, the first of its files whose name
 * ends in `.js`, and that file's entry in the asset table.
 */
module Selection {
  import opened Wrappers

  /** A chunk of the compilation: its name and the names of the files emitted for it. */
  datatype Chunk = Chunk(name: string, files: seq<string>)

  /** An emitted asset; `existsAt` is where the bundler wrote it. */
  datatype Asset = Asset(existsAt: string)

  /** The parts of a compilation the plugin reads. */
  datatype Compilation = Compilation(publicPath: string, chunks: seq<Chunk>, assets: map<string, Asset>)

  /** `Array.prototype.find`: the first element satisfying `p`, or `undefined`. */
  function Find<T>(s: seq<T>, p: T -> bool): (r: Option<T>)
    ensures r.Some? ==> r.value in s && p(r.value)
    ensures r.None? <==> forall k :: 0 <= k < |s| ==> !p(s[k])
  {
    if |s| == 0 then None
    else if p(s[0]) then Some(s[0])
    else Find(s[1..], p)
  }

  /** An element satisfying `p` with none before it is the one `Find` returns. */
  lemma {:induction false} FindFirst<T>(s: seq<T>, p: T -> bool, i: nat)
    requires i < |s| && p(s[i])
    requires forall k :: 0 <= k < i ==> !p(s[k])
    ensures Find(s, p) == Some(s[i])
  {
    if i > 0 {
      FindFirst(s[1..], p, i - 1);
    }
  }

  /** What `Find` returns is the first element satisfying `p`. */
  lemma {:induction false} FindIsFirst<T>(s: seq<T>, p: T -> bool)
    requires Find(s, p).Some?
    ensures exists i :: 0 <= i < |s| && s[i] == Find(s, p).value && forall k :: 0 <= k < i ==> !p(s[k])
  {
    if !p(s[0]) {
      FindIsFirst(s[1..], p);
      var i :| 0 <= i < |s[1..]| && s[1..][i] == Find(s[1..], p).value
        && forall k :: 0 <= k < i ==> !p(s[1..][k]);
      assert s[i + 1] == Find(s, p).value;
      assert forall k :: 0 <= k < i + 1 ==> !p(s[k]) by {
        forall k | 0 <= k < i + 1 ensures !p(s[k]) {
          if k > 0 { assert s[k] == s[1..][k - 1]; }
        }
      }
    } else {
      assert s[0] == Find(s, p).value;
    }
  }

  /** `chunks.find(chunk => chunk.name === chunkName)`. */
  function FindChunk(chunks: seq<Chunk>, chunkName: string): (r: Option<Chunk>)
    ensures r.Some? ==> r.value in chunks && r.value.name == chunkName
    ensures r.None? <==> forall k :: 0 <= k < |chunks| ==> chunks[k].name != chunkName
  {
    Find(chunks, (c: Chunk) => c.name == chunkName)
  }

  /** The chunk chosen is the first one with the name: no earlier chunk has it. */
  lemma FindChunkIsFirst(chunks: seq<Chunk>, chunkName: string, i: nat)
    requires i < |chunks| && chunks[i].name == chunkName
    requires forall k :: 0 <= k < i ==> chunks[k].name != chunkName
    ensures FindChunk(chunks, chunkName) == Some(chunks[i])
  {
    FindFirst(chunks, (c: Chunk) => c.name == chunkName, i);
  }

  /** The match of `/.*\.js$/`: without the `m` flag, `$` matches only at the end, so this is a suffix test. */
  predicate EndsWithJs(file: string): (b: bool)
    ensures b <==> exists stem: string :: stem + ".js" == file
  {
    assert |file| >= 3 ==> file[..|file| - 3] + file[|file| - 3..] == file;
    |file| >= 3 && file[|file| - 3..] == ".js"
  }

  /** `files.find(file => file.match(/.*\.js$/))`. */
  function FindJsFile(files: seq<string>): (r: Option<string>)
    ensures r.Some? ==> r.value in files && |r.value| >= 3 && r.value[|r.value| - 3..] == ".js"
    ensures r.None? <==> forall k :: 0 <= k < |files| ==> !EndsWithJs(files[k])
  {
    Find(files, EndsWithJs)
  }

  /** The file chosen is the first whose name ends in `.js`. */
  lemma FindJsFileIsFirst(files: seq<string>, i: nat)
    requires i < |files| && EndsWithJs(files[i])
    requires forall k :: 0 <= k < i ==> !EndsWithJs(files[k])
    ensures FindJsFile(files) == Some(files[i])
  {
    FindFirst(files, EndsWithJs, i);
  }

  /** Converse of FindJsFileIsFirst: no file before the chosen one ends in `.js`. */
  lemma FindJsFileNoneBefore(files: seq<string>)
    requires FindJsFile(files).Some?
    ensures exists i :: 0 <= i < |files| && files[i] == FindJsFile(files).value &&
                        forall k :: 0 <= k < i ==> !EndsWithJs(files[k])
  {
    FindIsFirst(files, EndsWithJs);
  }

  /** Converse of FindChunkIsFirst: no chunk before the chosen one has the name. */
  lemma FindChunkNoneBefore(chunks: seq<Chunk>, chunkName: string)
    requires FindChunk(chunks, chunkName).Some?
    ensures exists i :: 0 <= i < |chunks| && chunks[i] == FindChunk(chunks, chunkName).value &&
                        forall k :: 0 <= k < i ==> chunks[k].name != chunkName
  {
    var p := (c: Chunk) => c.name == chunkName;
    FindIsFirst(chunks, p);
    var i :| 0 <= i < |chunks| && chunks[i] == Find(chunks, p).value && forall k :: 0 <= k < i ==> !p(chunks[k]);
    assert forall k :: 0 <= k < i ==> chunks[k].name != chunkName by {
      forall k | 0 <= k < i ensures chunks[k].name != chunkName { assert !p(chunks[k]); }
    }
  }

  /** Where the selection ends: a path to open, or the TypeError the handler throws. */
  datatype Located =
    | Found(path: string)
    | ChunkMissing   // `chunk.files` on an undefined chunk
    | AssetMissing   // `manifestAsset.existsAt` on an undefined asset

  /** The selection steps of the after-emit handler, up to `manifestAsset.existsAt`. */
  function LocateManifest(c: Compilation, chunkName: string): (r: Located)
    ensures r == ChunkMissing <==> forall k :: 0 <= k < |c.chunks| ==> c.chunks[k].name != chunkName
    ensures r.Found? ==> exists a :: a in c.assets.Values && a.existsAt == r.path
  {
    match FindChunk(c.chunks, chunkName)
    case None => ChunkMissing
    case Some(chunk) =>
      // JavaScript turns an `undefined` property key into the string "undefined".
      var key := match FindJsFile(chunk.files) case Some(f) => f case None => "undefined";
      if key in c.assets then
        assert c.assets[key] in c.assets.Values;
        Found(c.assets[key].existsAt)
      else AssetMissing
  }

  /**
   * When chunk `i` is the first with the name and none of its files ends in `.js`,
   * the asset looked up is the one stored under the key "undefined".
   */
  lemma LocateWithoutJsFile(c: Compilation, chunkName: string, i: nat)
    requires i < |c.chunks| && c.chunks[i].name == chunkName
    requires forall k :: 0 <= k < i ==> c.chunks[k].name != chunkName
    requires forall k :: 0 <= k < |c.chunks[i].files| ==> !EndsWithJs(c.chunks[i].files[k])
    ensures LocateManifest(c, chunkName) ==
      if "undefined" in c.assets then Found(c.assets["undefined"].existsAt) else AssetMissing
  {
    FindChunkIsFirst(c.chunks, chunkName, i);
  }

  /**
   * When chunk `i` is the first with the name and file `f` the first `.js` file of
   * that chunk, the path opened is the one the asset table records for that file.
   */
  lemma LocateFirstJsOfFirstChunk(c: Compilation, chunkName: string, i: nat, f: nat)
    requires i < |c.chunks| && c.chunks[i].name == chunkName
    requires forall k :: 0 <= k < i ==> c.chunks[k].name != chunkName
    requires f < |c.chunks[i].files| && EndsWithJs(c.chunks[i].files[f])
    requires forall k :: 0 <= k < f ==> !EndsWithJs(c.chunks[i].files[k])
    ensures c.chunks[i].files[f] in c.assets ==>
      LocateManifest(c, chunkName) == Found(c.assets[c.chunks[i].files[f]].existsAt)
    ensures c.chunks[i].files[f] !in c.assets ==> LocateManifest(c, chunkName) == AssetMissing
  {
    FindChunkIsFirst(c.chunks, chunkName, i);
    FindJsFileIsFirst(c.chunks[i].files, f);
  }
}
