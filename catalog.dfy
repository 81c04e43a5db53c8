/** The animation catalog: every `.ron` file among the bundled assets, loaded
    once and kept under its file stem as a shared definition. */
module Catalog {
  import opened Wrappers
  import opened Geometry
  import opened Loader
  import opened Playback

  /** One bundled asset file: its stem, its extension if it has one, and its
      text read as animation parameters (`None` when the text does not parse). */
  datatype AssetFile = AssetFile(stem: string, extension: Option<string>, parsed: Option<AnimationParams>)

  /** Why loading the catalog stops: a file that does not parse (reported
      with the animation's name), or a frame of a parsed file that cannot be
      cut from its sheet. */
  datatype CatalogError = ParseFailed(name: string) | LoadFailed(cause: SpriteError)

  /** Only files with extension `ron` are animations; everything else is skipped. */
  predicate IsAnimationFile(f: AssetFile) {
    f.extension == Some("ron")
  }

  /** A file the loop gets past: not an animation, or one that parses and
      whose every frame has a cell. */
  ghost predicate Loads(images: ImageTable, f: AssetFile) {
    IsAnimationFile(f) ==>
      f.parsed.Some? && forall k :: 0 <= k < |f.parsed.value.sprites| ==> FrameCell(images, f.parsed.value, k).Ok?
  }

  /** File `j` is the last animation file before position `i` named `name`:
      the one whose definition the catalog holds for `name` after `i` files. */
  ghost predicate LatestBefore(files: seq<AssetFile>, i: nat, name: string, j: nat) {
    j < i <= |files| && IsAnimationFile(files[j]) && files[j].stem == name &&
    forall k :: j < k < i ==> !(IsAnimationFile(files[k]) && files[k].stem == name)
  }

  /** `e` is what loading file `f` reports: the file's name when it does not
      parse, otherwise the error of its first frame that has no cell (loading
      stops there). */
  ghost predicate Reports(images: ImageTable, f: AssetFile, e: CatalogError) {
    match f.parsed
    case None => e == ParseFailed(f.stem)
    case Some(anim) =>
      e.LoadFailed? && exists k :: FailsFirstAt(images, anim, k, e.cause)
  }

  /** File `i` is the first that does not load, and `e` is what it reports. */
  ghost predicate FirstFailure(images: ImageTable, files: seq<AssetFile>, i: nat, e: CatalogError) {
    i < |files| && !Loads(images, files[i]) && Reports(images, files[i], e) &&
    forall k :: 0 <= k < i ==> Loads(images, files[k])
  }

  /** The first file that does not load, after files that all did, is the
      first failure. */
  lemma StopAt(images: ImageTable, files: seq<AssetFile>, i: nat,
               anims: map<string, SharedData>, origin: map<string, nat>, e: CatalogError)
    requires TableWellFormed(images) && i < |files| && Built(images, files, i, anims, origin)
    requires !Loads(images, files[i]) && Reports(images, files[i], e)
    ensures FirstFailure(images, files, i, e)
  {
  }

  /** No two names share one definition object, so `is_instance` tells the
      animations of different names apart. */
  ghost predicate Distinct(anims: map<string, SharedData>) {
    forall a, b :: a in anims && b in anims && a != b ==> anims[a] != anims[b]
  }

  /** Every definition in `anims` is one of the objects in `made`. */
  ghost predicate ValuesIn(anims: map<string, SharedData>, made: set<SharedData>) {
    forall name :: name in anims ==> anims[name] in made
  }

  /** Inserting an object no name holds yet keeps the definitions distinct. */
  lemma InsertNew(anims: map<string, SharedData>, made: set<SharedData>, name: string, data: SharedData)
    requires Distinct(anims) && ValuesIn(anims, made) && data !in made
    ensures Distinct(anims[name := data]) && ValuesIn(anims[name := data], made + {data})
  {
  }

  /** The catalog after the first `i` files: every animation file passed so far
      has its stem in `anims`, and each name holds the definition loaded from
      the last such file, whose position `origin` records. */
  ghost predicate Built(images: ImageTable, files: seq<AssetFile>, i: nat,
                        anims: map<string, SharedData>, origin: map<string, nat>)
    requires TableWellFormed(images)
  {
    i <= |files| && origin.Keys == anims.Keys &&
    (forall k :: 0 <= k < i ==> Loads(images, files[k])) &&
    (forall k :: 0 <= k < i && IsAnimationFile(files[k]) ==> files[k].stem in anims) &&
    (forall name :: name in origin ==>
      LatestBefore(files, i, name, origin[name]) && files[origin[name]].parsed.Some? &&
      IsLoadedAnimation(images, files[origin[name]].parsed.value, anims[name].data))
  }

  /** A file that is not an animation leaves the catalog as it was. */
  lemma SkipFile(images: ImageTable, files: seq<AssetFile>, i: nat,
                 anims: map<string, SharedData>, origin: map<string, nat>)
    requires TableWellFormed(images) && i < |files| && !IsAnimationFile(files[i]) && Loads(images, files[i])
    requires Built(images, files, i, anims, origin)
    ensures Built(images, files, i + 1, anims, origin)
  {
    forall name | name in origin
      ensures LatestBefore(files, i + 1, name, origin[name])
    {
      assert LatestBefore(files, i, name, origin[name]);
    }
  }

  /** An animation file puts its definition under its stem, replacing any
      earlier definition of that name. */
  lemma AddFile(images: ImageTable, files: seq<AssetFile>, i: nat,
                anims: map<string, SharedData>, origin: map<string, nat>, data: SharedData)
    requires TableWellFormed(images) && i < |files| && IsAnimationFile(files[i]) && files[i].parsed.Some?
    requires IsLoadedAnimation(images, files[i].parsed.value, data.data) && Loads(images, files[i])
    requires Built(images, files, i, anims, origin)
    ensures Built(images, files, i + 1, anims[files[i].stem := data], origin[files[i].stem := i])
  {
    var name' := files[i].stem;
    var anims', origin' := anims[name' := data], origin[name' := i];
    forall name | name in origin'
      ensures LatestBefore(files, i + 1, name, origin'[name])
    {
      if name != name' {
        assert LatestBefore(files, i, name, origin[name]);
      }
    }
  }

  /** The finished catalog: every animation file's stem is a name, and each
      name holds the definition loaded from the last file of that name. */
  ghost predicate Catalogued(images: ImageTable, files: seq<AssetFile>, anims: map<string, SharedData>)
    requires TableWellFormed(images)
  {
    (forall k :: 0 <= k < |files| && IsAnimationFile(files[k]) ==> files[k].stem in anims) &&
    forall name :: name in anims ==> exists j: nat ::
      LatestBefore(files, |files|, name, j) && files[j].parsed.Some? &&
      IsLoadedAnimation(images, files[j].parsed.value, anims[name].data)
  }

  /** Once every file is passed, the catalog is complete. */
  lemma BuiltAll(images: ImageTable, files: seq<AssetFile>, anims: map<string, SharedData>, origin: map<string, nat>)
    requires TableWellFormed(images) && Built(images, files, |files|, anims, origin)
    ensures Catalogued(images, files, anims)
  {
    forall name | name in anims
      ensures exists j: nat ::
        LatestBefore(files, |files|, name, j) && files[j].parsed.Some? &&
        IsLoadedAnimation(images, files[j].parsed.value, anims[name].data)
    {
      var j := origin[name];
      assert LatestBefore(files, |files|, name, j);
    }
  }

  /** The body of the loop for one file: skip it (`None`) unless its
      extension is `ron`, then parse it and load the animation it describes. */
  method LoadFile(images: ImageTable, f: AssetFile) returns (r: Result<Option<AnimationData>, CatalogError>)
    requires TableWellFormed(images)
    ensures r.Ok? <==> Loads(images, f)
    ensures r.Err? ==> Reports(images, f, r.error)
    ensures r.Ok? ==> (r.value.Some? <==> IsAnimationFile(f))
    ensures r.Ok? && r.value.Some? ==> f.parsed.Some? && IsLoadedAnimation(images, f.parsed.value, r.value.value)
  {
    if f.extension.Some? && f.extension.value == "ron" {
      if f.parsed.None? {
        return Err(ParseFailed(f.stem));
      }
      var loaded := LoadAnimation(images, f.parsed.value);
      if loaded.Err? {
        return Err(LoadFailed(loaded.error));
      }
      return Ok(Some(loaded.value));
    }
    return Ok(None);
  }

  /** `load_animations`: walk the files in order, skip those that are not
      animations, parse and load the rest, and insert each under its stem,
      a later file replacing an earlier one of the same name. */
  method LoadAnimations(images: ImageTable, files: seq<AssetFile>)
    returns (r: Result<map<string, SharedData>, CatalogError>)
    requires TableWellFormed(images)
    ensures r.Ok? <==> forall i :: 0 <= i < |files| ==> Loads(images, files[i])
    ensures r.Err? ==> exists i :: FirstFailure(images, files, i, r.error)
    ensures r.Ok? ==> Catalogued(images, files, r.value)
    ensures r.Ok? ==> forall name :: name in r.value ==> fresh(r.value[name])
    ensures r.Ok? ==> Distinct(r.value)
  {
    var anims: map<string, SharedData> := map[];
    ghost var origin: map<string, nat> := map[];
    ghost var made: set<SharedData> := {};
    var i := 0;
    while i < |files|
      invariant 0 <= i <= |files|
      invariant Built(images, files, i, anims, origin)
      invariant fresh(made) && ValuesIn(anims, made) && Distinct(anims)
    {
      var loaded := LoadFile(images, files[i]);
      if loaded.Err? {
        StopAt(images, files, i, anims, origin, loaded.error);
        return Err(loaded.error);
      }
      if loaded.value.Some? {
        var data := new SharedData(loaded.value.value);
        AddFile(images, files, i, anims, origin, data);
        InsertNew(anims, made, files[i].stem, data);
        made := made + {data};
        anims := anims[files[i].stem := data];
        origin := origin[files[i].stem := i];
      } else {
        SkipFile(images, files, i, anims, origin);
      }
      i := i + 1;
    }
    BuiltAll(images, files, anims, origin);
    assert forall name :: name in anims ==> anims[name] in made;
    return Ok(anims);
  }
}
