/**
 * The plugin object: its options, the registration gate of `apply`, and the
 * after-emit handler that rewrites the manifest file through an abstract file system.
 */
module PublicPathPlugin {
  import opened Wrappers
  import opened EcmaReplace
  import opened Selection

  /** The constructor's argument; `None` is an option the caller left undefined. */
  datatype Options = Options(externalGlobal: Option<string>, chunkName: Option<string>)

  /** JavaScript truthiness of a string-or-undefined value. */
  predicate Truthy(v: Option<string>) {
    v.Some? && v.value != ""
  }

  /** The condition of `apply`: both options are truthy. */
  predicate Registers(o: Options) {
    Truthy(o.externalGlobal) && Truthy(o.chunkName)
  }

  /** The literal searched for: the public path as a double-quoted string literal. */
  function SearchPattern(publicPath: string): (p: string)
    ensures |p| == |publicPath| + 2
    ensures p[0] == '"' && p[|p| - 1] == '"' && p[1..|p| - 1] == publicPath
  {
    "\"" + publicPath + "\""
  }

  /**
   * The rewrite of the manifest text: the first quoted public path becomes the global's
   * name, unquoted, when that name holds no `$`; a text in which the quoted path does not occur is written back unchanged.
   */
  function Rewrite(data: string, publicPath: string, externalGlobal: string): (r: string)
    ensures (forall i: nat :: !OccursAt(data, SearchPattern(publicPath), i)) ==> r == data
  {
    ReplaceFirst(data, SearchPattern(publicPath), externalGlobal)
  }

  /** Where the quoted public path occurs first, a `$`-free global replaces it, with no quotes around it. */
  lemma RewriteReplacesQuotedPath(data: string, publicPath: string, externalGlobal: string, i: nat)
    requires IsLeftmost(data, SearchPattern(publicPath), i)
    requires '$' !in externalGlobal
    ensures Rewrite(data, publicPath, externalGlobal) ==
      data[..i] + externalGlobal + data[i + |publicPath| + 2..]
  {
    ReplaceLeftmost(data, SearchPattern(publicPath), externalGlobal, i);
  }

  /** A quoted public path with no double quote before it is the one rewritten. */
  lemma RewriteAfterQuoteFreePrefix(pre: string, publicPath: string, post: string, externalGlobal: string)
    requires '"' !in pre
    requires '$' !in externalGlobal
    ensures Rewrite(pre + "\"" + publicPath + "\"" + post, publicPath, externalGlobal) == pre + externalGlobal + post
  {
    var pat := SearchPattern(publicPath);
    var data := pre + pat + post;
    assert data == pre + "\"" + publicPath + "\"" + post;
    assert data[|pre|..|pre| + |pat|] == pat;
    assert forall j: nat :: j < |pre| ==> !OccursAt(data, pat, j);
    RewriteReplacesQuotedPath(data, publicPath, externalGlobal, |pre|);
    assert data[..|pre|] == pre;
    assert data[|pre| + |publicPath| + 2..] == post;
  }

  /**
   * An example: `var p="/static/v1/";` becomes `var p=window.__CDN__;`. The strings are
   * parameters fixed by the precondition: written as one literal equation, the solver
   * unfolds the search on constant arguments without bound.
   */
  lemma RewriteExample(pre: string, publicPath: string, post: string, externalGlobal: string)
    requires pre == "var p=" && publicPath == "/static/v1/" && post == ";"
    requires externalGlobal == "window.__CDN__"
    ensures Rewrite(pre + "\"" + publicPath + "\"" + post, publicPath, externalGlobal) == pre + externalGlobal + post
  {
    RewriteAfterQuoteFreePrefix(pre, publicPath, post, externalGlobal);
  }

  /** How one run of the after-emit handler ended. */
  datatype Outcome =
    | Replaced      // the rewritten text was written back
    | WriteFailed   // `fs.writeFile` reported an error
    | ReadFailed    // `fs.readFile` reported an error
    | FileMissing   // `fs.exists` answered false
    | TypeError     // the chunk or the asset was undefined; the handler threw

  /**
   * An abstract file system: the files that exist with their contents, the paths
   * whose reads or writes fail, and the log of write calls made.
   */
  class FileSystem {
    var files: map<string, string>
    const unreadable: set<string>
    const unwritable: set<string>
    var writes: seq<(string, string)>

    constructor (files: map<string, string>, unreadable: set<string>, unwritable: set<string>)
      ensures this.files == files && this.unreadable == unreadable && this.unwritable == unwritable
      ensures writes == []
    {
      this.files := files;
      this.unreadable := unreadable;
      this.unwritable := unwritable;
      writes := [];
    }

    /** `fs.exists`. */
    method Exists(path: string) returns (b: bool)
      ensures b <==> path in files
    {
      b := path in files;
    }

    /** `fs.readFile(path, 'utf8')`: the contents, or `None` for an error. */
    method ReadFile(path: string) returns (r: Option<string>)
      ensures r.Some? <==> path in files && path !in unreadable
      ensures r.Some? ==> r.value == files[path]
    {
      if path in files && path !in unreadable {
        r := Some(files[path]);
      } else {
        r := None;
      }
    }

    /** `fs.writeFile(path, data, 'utf8')`: overwrites the whole file unless the write fails. */
    method WriteFile(path: string, data: string) returns (ok: bool)
      modifies this`files, this`writes
      ensures ok <==> path !in unwritable
      ensures files == if ok then old(files)[path := data] else old(files)
      ensures writes == old(writes) + [(path, data)]
    {
      ok := path !in unwritable;
      if ok {
        files := files[path := data];
      }
      writes := writes + [(path, data)];
    }
  }

  /** The completion callback webpack passes to an asynchronous after-emit handler; it counts its calls. */
  class Callback {
    var calls: nat

    constructor ()
      ensures calls == 0
    {
      calls := 0;
    }

    method Invoke()
      modifies this
      ensures calls == old(calls) + 1
    {
      calls := calls + 1;
    }
  }

  /** The compiler's list of registered after-emit handlers, each one a plugin whose handler runs. */
  class Compiler {
    var afterEmit: seq<DynamicPublicPathPlugin>

    constructor ()
      ensures afterEmit == []
    {
      afterEmit := [];
    }
  }

  class DynamicPublicPathPlugin {
    var options: Options

    constructor (options: Options)
      ensures this.options == options
    {
      this.options := options;
    }

    /** `apply`: registers the after-emit handler exactly when both options are truthy. */
    method Apply(compiler: Compiler)
      modifies compiler
      ensures compiler.afterEmit == old(compiler.afterEmit) + (if Registers(options) then [this] else [])
    {
      if Truthy(options.externalGlobal) && Truthy(options.chunkName) {
        compiler.afterEmit := compiler.afterEmit + [this];
      }
    }

    /**
     * The after-emit handler. It exists only once `Apply` has seen both options truthy.
     * When the selection throws, neither the file system nor the callback is touched;
     * otherwise the callback runs once, and the file is written exactly when it exists
     * and could be read, with the rewritten text, at the path it was read from.
     */
    method AfterEmit(compilation: Compilation, fs: FileSystem, callback: Callback) returns (outcome: Outcome)
      requires Registers(options)
      modifies fs, callback
      ensures outcome == TypeError <==> !LocateManifest(compilation, options.chunkName.value).Found?
      ensures var loc := LocateManifest(compilation, options.chunkName.value);
        !loc.Found? ==> callback.calls == old(callback.calls)
      ensures var loc := LocateManifest(compilation, options.chunkName.value);
        loc.Found? && loc.path in old(fs.files) && loc.path !in fs.unreadable && loc.path !in fs.unwritable ==>
          outcome == Replaced
      ensures LocateManifest(compilation, options.chunkName.value).Found? ==>
        callback.calls == old(callback.calls) + 1
      ensures var loc := LocateManifest(compilation, options.chunkName.value);
        loc.Found? ==>
          (outcome == FileMissing <==> loc.path !in old(fs.files)) &&
          (outcome == ReadFailed <==> loc.path in old(fs.files) && loc.path in fs.unreadable) &&
          (outcome == WriteFailed <==> loc.path in old(fs.files) && loc.path !in fs.unreadable &&
                                       loc.path in fs.unwritable)
      ensures var loc := LocateManifest(compilation, options.chunkName.value);
        if outcome in {Replaced, WriteFailed} then
          loc.Found? && loc.path in old(fs.files) &&
          fs.writes == old(fs.writes) + [(loc.path, Rewrite(old(fs.files)[loc.path], compilation.publicPath,
                                                            options.externalGlobal.value))]
        else
          fs.writes == old(fs.writes)
      ensures outcome == Replaced ==>
        var path := LocateManifest(compilation, options.chunkName.value).path;
        fs.files == old(fs.files)[path := Rewrite(old(fs.files)[path], compilation.publicPath,
                                                  options.externalGlobal.value)]
      ensures outcome != Replaced ==> fs.files == old(fs.files)
    {
      var publicPathToReplace := compilation.publicPath;
      var chunk := FindChunk(compilation.chunks, options.chunkName.value);
      if chunk.None? {
        return TypeError;
      }
      var jsfile := FindJsFile(chunk.value.files);
      var key := if jsfile.Some? then jsfile.value else "undefined";
      if key !in compilation.assets {
        return TypeError;
      }
      var manifestAsset := compilation.assets[key];
      var filePath := manifestAsset.existsAt;
      assert LocateManifest(compilation, options.chunkName.value) == Found(filePath);

      var fileExists := fs.Exists(filePath);
      if fileExists {
        var data := fs.ReadFile(filePath);
        if data.None? {
          callback.Invoke();
          return ReadFailed;
        }
        var result := Rewrite(data.value, publicPathToReplace, options.externalGlobal.value);
        var ok := fs.WriteFile(filePath, result);
        outcome := if ok then Replaced else WriteFailed;
        callback.Invoke();
      } else {
        outcome := FileMissing;
        callback.Invoke();
      }
    }
  }
}
