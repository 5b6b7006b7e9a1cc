/**
 The two-level build cache for C files.  The name of the dependency file is a hash of the
 compilation key; the name of the object is a hash of that name and of the contents of all
 dependencies.  Hashes are taken to be free of collisions, so a name is what it hashes.
 */
module CObjectCache {
  import opened Wrappers

  type Path = string
  type Content = string
  type Object = string

  /** The files as they are at one moment. */
  type Files = map<Path, Content>

  /** Compiler flags, recorded path and compiler version. */
  datatype Config = Config(flags: seq<string>, recordedPath: string, llvmVersion: string)

  /** What the name of the dependency file hashes. */
  datatype Key = Key(path: Path, content: Content, config: Config)

  /** What the name of the object file hashes. */
  datatype ObjectName = ObjectName(key: Key, contents: Files)

  datatype Output = Output(obj: Object, deps: seq<Path>)

  /** The C compiler: the object and the files it read, or failure. */
  type Compiler = (Path, Config, Files) -> Option<Output>

  datatype Error = CannotHash | CompileFailed

  datatype Cache = Cache(depfiles: map<Key, seq<Path>>, objects: map<ObjectName, Object>)

  const EMPTY := Cache(map[], map[])

  // ---------- what a call does ----------

  /** makeCFileCachePath: the contents of all listed files, unless one is missing. */
  function Hashes(files: Files, paths: seq<Path>): Option<Files> {
    if exists i :: 0 <= i < |paths| && paths[i] !in files then None
    else Some(map p | p in paths && p in files :: files[p])
  }

  /** The dependencies as recorded: each file once, the source file included. */
  ghost predicate Recorded(out: Output, path: Path, deps: seq<Path>) {
    && (forall p :: p in deps <==> p in out.deps || p == path)
    && (forall i, j :: 0 <= i < j < |deps| ==> deps[i] != deps[j])
  }

  datatype Answer = Answer(cache: Cache, name: Result<ObjectName, Error>, hit: bool)

  /** The object a lookup finds, when dependency file and object are both there. */
  function Lookup(cache: Cache, files: Files, key: Key): Option<ObjectName> {
    if key !in cache.depfiles then None
    else match Hashes(files, cache.depfiles[key])
      case None => None
      case Some(contents) => if ObjectName(key, contents) in cache.objects then Some(ObjectName(key, contents)) else None
  }

  /** A call of compileAndCacheCFile while the files may change: files is how they are when the
      cache is looked up, during when the compiler reads them, after when they are hashed. */
  ghost predicate CallsDuring(compile: Compiler, cache: Cache, files: Files, during: Files, after: Files,
                              path: Path, config: Config, a: Answer)
  {
    if path !in files then a == Answer(cache, Err(CannotHash), false)
    else
      var key := Key(path, files[path], config);
      match Lookup(cache, files, key)
      case Some(name) => a == Answer(cache, Ok(name), true)
      case None =>
        match compile(path, config, during)
        case None => a == Answer(cache, Err(CompileFailed), false)
        case Some(out) => Stores(cache, after, key, out, a)
  }

  /** A call during which the files do not change. */
  ghost predicate Calls(compile: Compiler, cache: Cache, files: Files, path: Path, config: Config, a: Answer) {
    CallsDuring(compile, cache, files, files, files, path, config, a)
  }

  /** A compilation writes the dependency file, then the object under its name. */
  ghost predicate Stores(cache: Cache, files: Files, key: Key, out: Output, a: Answer) {
    exists deps :: Recorded(out, key.path, deps) && a == Stored(cache, files, key, out.obj, deps)
  }

  function Stored(cache: Cache, files: Files, key: Key, obj: Object, deps: seq<Path>): Answer {
    var depfiles := cache.depfiles[key := deps];
    match Hashes(files, deps)
    case None => Answer(Cache(depfiles, cache.objects), Err(CannotHash), false)
    case Some(contents) =>
      var name := ObjectName(key, contents);
      Answer(Cache(depfiles, cache.objects[name := obj]), Ok(name), false)
  }

  class CFileCache {
    var depfiles: map<Key, seq<Path>>
    var objects: map<ObjectName, Object>

    function Now(): Cache
      reads this
    {
      Cache(depfiles, objects)
    }

    constructor ()
      ensures Now() == EMPTY
    {
      depfiles, objects := map[], map[];
    }

    /** Compile the file, or find its object in the cache. */
    method CompileAndCacheCFile(compile: Compiler, files: Files, during: Files, after: Files, path: Path, config: Config)
      returns (name: Result<ObjectName, Error>, hit: bool)
      modifies this
      ensures CallsDuring(compile, old(Now()), files, during, after, path, config, Answer(Now(), name, hit))
    {
      hit := false;
      if path !in files {
        return Err(CannotHash), false;
      }
      var key := Key(path, files[path], config);
      if key in depfiles {
        var contents := MakeCFileCachePath(files, depfiles[key]);
        if contents.Some? {
          var outpath := ObjectName(key, contents.value);
          if outpath in objects {
            return Ok(outpath), true;
          }
        }
      }
      var out := compile(path, config, during);
      if out.None? {
        return Err(CompileFailed), false;
      }
      var dependencySlice := UniquePaths(out.value.deps + [path]);
      assert Recorded(out.value, path, dependencySlice);
      depfiles := depfiles[key := dependencySlice];
      var contents := MakeCFileCachePath(after, dependencySlice);
      if contents.None? {
        return Err(CannotHash), false;
      }
      var outpath := ObjectName(key, contents.value);
      objects := objects[outpath := out.value.obj];
      name := Ok(outpath);
    }
  }

  /** Hash every file of the list; fails on the first that is missing. */
  method MakeCFileCachePath(files: Files, paths: seq<Path>) returns (contents: Option<Files>)
    ensures contents == Hashes(files, paths)
  {
    var fileHashes: Files := map[];
    for i := 0 to |paths|
      invariant forall j :: 0 <= j < i ==> paths[j] in files
      invariant fileHashes == map p | p in paths[..i] && p in files :: files[p]
    {
      if paths[i] !in files {
        return None;
      }
      assert paths[..i + 1] == paths[..i] + [paths[i]];
      fileHashes := fileHashes[paths[i] := files[paths[i]]];
    }
    assert paths[..|paths|] == paths;
    contents := Some(fileHashes);
  }

  /** Drop repeated paths. */
  method UniquePaths(paths: seq<Path>) returns (slice: seq<Path>)
    ensures forall p :: p in slice <==> p in paths
    ensures forall i, j :: 0 <= i < j < |slice| ==> slice[i] != slice[j]
  {
    var seen: set<Path> := {};
    slice := [];
    for i := 0 to |paths|
      invariant forall p :: p in seen <==> p in paths[..i]
      invariant forall p :: p in seen <==> p in slice
      invariant forall i, j :: 0 <= i < j < |slice| ==> slice[i] != slice[j]
    {
      assert paths[..i + 1] == paths[..i] + [paths[i]];
      if paths[i] in seen {
        continue;
      }
      seen := seen + {paths[i]};
      slice := slice + [paths[i]];
    }
    assert paths[..|paths|] == paths;
  }

  // ---------- when the cache is right ----------

  /** Two states of the files look the same to a compilation that read deps. */
  ghost predicate AgreeOn(f: Files, f': Files, path: Path, deps: seq<Path>) {
    forall p :: p in deps || p == path ==> p in f && p in f' && f[p] == f'[p]
  }

  /** The object made by the compiler depends only on the files it reports. */
  ghost predicate Local(compile: Compiler) {
    forall path, config, f, f' :: LocalAt(compile, path, config, f, f')
  }

  ghost predicate LocalAt(compile: Compiler, path: Path, config: Config, f: Files, f': Files) {
    compile(path, config, f).Some? && AgreeOn(f, f', path, compile(path, config, f).value.deps) ==>
      compile(path, config, f').Some? && compile(path, config, f').value.obj == compile(path, config, f).value.obj
  }

  /** The object was compiled from some earlier state of the files, the one its name hashes. */
  ghost predicate Justified(compile: Compiler, name: ObjectName, obj: Object) {
    exists f: Files ::
      && compile(name.key.path, name.key.config, f).Some?
      && var out := compile(name.key.path, name.key.config, f).value;
         && out.obj == obj
         && (forall p :: p in out.deps || p == name.key.path ==> p in f && p in name.contents && name.contents[p] == f[p])
  }

  /** Every cached object is what its name says, whatever the dependency files list. */
  ghost predicate Sound(compile: Compiler, cache: Cache) {
    forall name :: name in cache.objects ==> Justified(compile, name, cache.objects[name])
  }

  /** The answer is the object that compiling now would give. */
  ghost predicate Right(compile: Compiler, files: Files, path: Path, config: Config, a: Answer) {
    a.name.Ok? ==>
      && a.name.value in a.cache.objects
      && compile(path, config, files).Some?
      && a.cache.objects[a.name.value] == compile(path, config, files).value.obj
  }

  lemma HitRight(compile: Compiler, cache: Cache, files: Files, path: Path, config: Config)
    requires Sound(compile, cache) && Local(compile) && path in files
    requires Lookup(cache, files, Key(path, files[path], config)).Some?
    ensures var name := Lookup(cache, files, Key(path, files[path], config)).value;
            && compile(path, config, files).Some?
            && cache.objects[name] == compile(path, config, files).value.obj
  {
    var name := Lookup(cache, files, Key(path, files[path], config)).value;
    assert Justified(compile, name, cache.objects[name]);
    var f: Files :|
      && compile(path, config, f).Some?
      && var out := compile(path, config, f).value;
         && out.obj == cache.objects[name]
         && (forall p :: p in out.deps || p == path ==> p in f && p in name.contents && name.contents[p] == f[p]);
    assert AgreeOn(f, files, path, compile(path, config, f).value.deps);
    assert LocalAt(compile, path, config, f, files);
  }

  lemma StoreKeeps(compile: Compiler, cache: Cache, files: Files, path: Path, config: Config, a: Answer)
    requires Sound(compile, cache) && path in files && compile(path, config, files).Some?
    requires Stores(cache, files, Key(path, files[path], config), compile(path, config, files).value, a)
    ensures Sound(compile, a.cache) && Right(compile, files, path, config, a)
  {
    var key := Key(path, files[path], config);
    var out := compile(path, config, files).value;
    if a.name.Ok? {
      var name := a.name.value;
      assert Justified(compile, name, out.obj) by {
        assert forall p :: p in out.deps || p == path ==> p in files && p in name.contents && name.contents[p] == files[p];
      }
    }
  }

  /** Any call on a sound cache, with any files, gives the right answer and keeps the cache
      sound: the files may change freely between calls. */
  lemma CallRight(compile: Compiler, cache: Cache, files: Files, path: Path, config: Config, a: Answer)
    requires Sound(compile, cache) && Local(compile) && Calls(compile, cache, files, path, config, a)
    ensures Sound(compile, a.cache) && Right(compile, files, path, config, a)
  {
    hide Sound, Local, Stores, Justified, Lookup;
    if path in files {
      var key := Key(path, files[path], config);
      if Lookup(cache, files, key).Some? {
        HitRight(compile, cache, files, path, config);
        FoundExists(cache, files, key);
      } else if compile(path, config, files).Some? {
        StoreKeeps(compile, cache, files, path, config, a);
      }
    }
  }

  lemma FoundExists(cache: Cache, files: Files, key: Key)
    requires Lookup(cache, files, key).Some?
    ensures Lookup(cache, files, key).value in cache.objects
  {
  }

  // ---------- edits while a call runs ----------

  /** Nothing that a compilation used changed while the call ran. */
  ghost predicate Unedited(files: Files, during: Files, after: Files, path: Path, deps: seq<Path>) {
    path in files && AgreeOn(during, after, path, deps) && files[path] == during[path]
  }

  /** Edits while a call runs do no harm to files that the compilation does not use. */
  lemma UneditedRight(compile: Compiler, cache: Cache, files: Files, during: Files, after: Files, path: Path, config: Config,
                      a: Answer)
    requires Sound(compile, cache) && !a.hit && CallsDuring(compile, cache, files, during, after, path, config, a)
    requires compile(path, config, during).Some? ==>
               Unedited(files, during, after, path, compile(path, config, during).value.deps)
    ensures Sound(compile, a.cache) && Right(compile, during, path, config, a)
  {
    hide Lookup;
    if path in files && Lookup(cache, files, Key(path, files[path], config)).None? && compile(path, config, during).Some? {
      var key := Key(path, files[path], config);
      var out := compile(path, config, during).value;
      var deps :| Recorded(out, path, deps) && a == Stored(cache, after, key, out.obj, deps);
      if a.name.Ok? {
        assert Justified(compile, a.name.value, out.obj) by {
          assert forall p :: p in out.deps || p == path ==> p in during && p in a.name.value.contents
                                                            && a.name.value.contents[p] == during[p];
        }
      }
    }
  }

  /** An edit between compiling and hashing stores the old object under the name of the new
      files: the next call is a hit, and right if and only if the edit did not matter. */
  lemma EditedNextRightIff(compile: Compiler, cache: Cache, files: Files, during: Files, after: Files, path: Path,
                           config: Config, a: Answer, b: Answer)
    requires CallsDuring(compile, cache, files, during, after, path, config, a) && !a.hit && a.name.Ok?
    requires path in files && path in after && after[path] == files[path]
    requires Calls(compile, a.cache, after, path, config, b)
    ensures b.hit && b.name == a.name
    ensures compile(path, config, during).Some?
    ensures Right(compile, after, path, config, b) <==>
              compile(path, config, after).Some?
              && compile(path, config, after).value.obj == compile(path, config, during).value.obj
  {
    var key := Key(path, files[path], config);
    var out := compile(path, config, during).value;
    var deps :| Recorded(out, path, deps) && a == Stored(cache, after, key, out.obj, deps);
    assert a.cache.depfiles[key] == deps;
    assert Lookup(a.cache, after, key) == Some(a.name.value);
  }

  /** One call in a history, with the files as they are then. */
  datatype Call = Call(files: Files, path: Path, config: Config, answer: Answer)

  /** A history of calls that starts with the given cache, with arbitrary edits between them. */
  ghost predicate History(compile: Compiler, cache: Cache, calls: seq<Call>)
    decreases |calls|
  {
    calls == [] ||
    (&& Calls(compile, cache, calls[0].files, calls[0].path, calls[0].config, calls[0].answer)
     && History(compile, calls[0].answer.cache, calls[1..]))
  }

  /** Over every history of edits and calls, every answer is right. */
  lemma {:induction false} HistoryRight(compile: Compiler, cache: Cache, calls: seq<Call>, i: nat)
    requires Sound(compile, cache) && Local(compile) && History(compile, cache, calls) && i < |calls|
    ensures Right(compile, calls[i].files, calls[i].path, calls[i].config, calls[i].answer)
    decreases |calls|
  {
    hide Sound, Local, Calls, Right;
    var c := calls[0];
    CallRight(compile, cache, c.files, c.path, c.config, c.answer);
    if i > 0 {
      HistoryRight(compile, c.answer.cache, calls[1..], i - 1);
    }
  }

  /** Calling again with the same files finds the object without compiling. */
  lemma RepeatHits(compile: Compiler, cache: Cache, files: Files, path: Path, config: Config, a: Answer, b: Answer)
    requires Calls(compile, cache, files, path, config, a) && a.name.Ok?
    requires Calls(compile, a.cache, files, path, config, b)
    ensures b == Answer(a.cache, a.name, true)
  {
    var key := Key(path, files[path], config);
    if Lookup(cache, files, key).None? {
      var out := compile(path, config, files).value;
      var deps :| Recorded(out, key.path, deps) && a == Stored(cache, files, key, out.obj, deps);
      assert a.cache.depfiles[key] == deps;
      assert Lookup(a.cache, files, key) == Some(a.name.value);
    }
  }

  /** Locality is needed: whenever a compiler's result changes although the files it
      reported stayed the same, the cache answers the second call with the old object. */
  lemma NonLocalIsStale(compile: Compiler, files: Files, files': Files, path: Path, config: Config, a: Answer, b: Answer)
    requires compile(path, config, files).Some?
    requires AgreeOn(files, files', path, compile(path, config, files).value.deps)
    requires Calls(compile, EMPTY, files, path, config, a)
    requires Calls(compile, a.cache, files', path, config, b)
    ensures b.hit && b.name.Ok? && b.name.value in b.cache.objects
    ensures b.cache.objects[b.name.value] == compile(path, config, files).value.obj
  {
    var key := Key(path, files[path], config);
    var out := compile(path, config, files).value;
    assert Lookup(EMPTY, files, key).None?;
    var deps :| Recorded(out, key.path, deps) && a == Stored(EMPTY, files, key, out.obj, deps);
    assert forall i :: 0 <= i < |deps| ==> deps[i] in files && deps[i] in files' && files[deps[i]] == files'[deps[i]];
    SameHashes(files, files', deps);
    assert Key(path, files'[path], config) == key;
    assert Lookup(a.cache, files', key) == Some(a.name.value);
  }

  lemma SameHashes(files: Files, files': Files, deps: seq<Path>)
    requires forall i :: 0 <= i < |deps| ==> deps[i] in files && deps[i] in files' && files[deps[i]] == files'[deps[i]]
    ensures Hashes(files, deps) == Hashes(files', deps) && Hashes(files, deps).Some?
  {
    assert (map p | p in deps && p in files :: files[p]) == (map p | p in deps && p in files' :: files'[p]);
  }

  /** The listed paths without repetitions. */
  function Unique(paths: seq<Path>): (r: seq<Path>)
    ensures forall p :: p in r <==> p in paths
    ensures forall i, j :: 0 <= i < j < |r| ==> r[i] != r[j]
  {
    if paths == [] then []
    else
      var init, last := paths[..|paths| - 1], paths[|paths| - 1];
      assert paths == init + [last];
      if last in init then Unique(init) else Unique(init) + [last]
  }

  /** Every call has an answer. */
  lemma CallAnswers(compile: Compiler, cache: Cache, files: Files, path: Path, config: Config) returns (a: Answer)
    ensures Calls(compile, cache, files, path, config, a)
  {
    if path !in files {
      return Answer(cache, Err(CannotHash), false);
    }
    var key := Key(path, files[path], config);
    match Lookup(cache, files, key) {
      case Some(name) => a := Answer(cache, Ok(name), true);
      case None =>
        match compile(path, config, files) {
          case None => a := Answer(cache, Err(CompileFailed), false);
          case Some(out) =>
            var deps := Unique(out.deps + [path]);
            assert Recorded(out, path, deps);
            a := Stored(cache, files, key, out.obj, deps);
        }
    }
  }

  ghost predicate AllRight(compile: Compiler, calls: seq<Call>) {
    forall i :: 0 <= i < |calls| ==>
      Right(compile, calls[i].files, calls[i].path, calls[i].config, calls[i].answer)
  }

  /** Exactly the local compilers are served right by the cache in every history of edits
      and calls that starts with an empty cache. */
  lemma RightIffLocal(compile: Compiler)
    ensures Local(compile) <==> forall calls: seq<Call> :: History(compile, EMPTY, calls) ==> AllRight(compile, calls)
  {
    hide History, Right, LocalAt;
    if Local(compile) {
      forall calls: seq<Call> | History(compile, EMPTY, calls) ensures AllRight(compile, calls) {
        forall i | 0 <= i < |calls|
          ensures Right(compile, calls[i].files, calls[i].path, calls[i].config, calls[i].answer)
        {
          assert Sound(compile, EMPTY);
          HistoryRight(compile, EMPTY, calls, i);
        }
      }
    } else {
      var path: Path, config: Config, f: Files, f': Files :| !LocalAt(compile, path, config, f, f');
      var calls := StaleHistory(compile, path, config, f, f');
    }
  }

  lemma StaleHistory(compile: Compiler, path: Path, config: Config, f: Files, f': Files) returns (calls: seq<Call>)
    requires !LocalAt(compile, path, config, f, f')
    ensures History(compile, EMPTY, calls) && !AllRight(compile, calls)
  {
    hide Calls;
    var a := CallAnswers(compile, EMPTY, f, path, config);
    var b := CallAnswers(compile, a.cache, f', path, config);
    NonLocalIsStale(compile, f, f', path, config, a, b);
    calls := [Call(f, path, config, a), Call(f', path, config, b)];
    assert calls[1..] == [Call(f', path, config, b)] && calls[1..][1..] == [];
    assert History(compile, a.cache, calls[1..]);
    assert !Right(compile, calls[1].files, calls[1].path, calls[1].config, calls[1].answer);
  }
}
