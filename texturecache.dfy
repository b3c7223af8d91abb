/**
 * The per-GL-context texture cache of MyceliaDataItem: a pool of texture
 * names generated up front, a map from image path to an index into that
 * pool, and a map from image path to the image's size. getTextureId only
 * ever adds entries; a path whose image cannot be read is not remembered.
 */
module TextureCache {
  import opened Types

  /** A texture name as glGenTextures hands it out: never 0. */
  type TextureName = n: int | n > 0 witness 1

  /** The number of texture names the constructor reserves. */
  const POOL_SIZE: nat := 1000

  /** Width and height of a decoded image. */
  datatype Size = Size(width: int, height: int)

  /** getTextureId's result: the texture name (0 for none) and the image size. */
  datatype TexturePair = TexturePair(name: int, size: Size)

  /** What getTextureId returns for the empty path or an unreadable image. */
  const NO_TEXTURE: TexturePair := TexturePair(0, Size(0, 0))

  /**
   * The outside world getTextureId talks to: the images the decoder can
   * read (path to size; a path not in the map throws) and the name
   * glGenTextures produces for each slot of the pool.
   */
  datatype Loader = Loader(images: map<string, Size>, gen: nat -> TextureName)

  /** textureIndexMap, textureSizeMap and textureIds as one value. */
  datatype CacheState = CacheState(indexOf: map<string, nat>, sizeOf: map<string, Size>, ids: seq<TextureName>)

  /** The indices 0 .. n-1. */
  function Range(n: nat): (r: set<nat>)
    ensures forall i: int :: i in r <==> 0 <= i < n
    ensures |r| == n
  {
    if n == 0 then {} else Range(n - 1) + {n - 1}
  }

  /** The names glGenTextures gives for slots 0 .. n-1. */
  function Pool(loader: Loader, n: nat): (ids: seq<TextureName>)
    ensures |ids| == n && forall i :: 0 <= i < n ==> ids[i] == loader.gen(i)
  {
    if n == 0 then [] else Pool(loader, n - 1) + [loader.gen(n - 1)]
  }

  /**
   * The cache invariant: both maps have the same paths, the empty path is
   * never cached, the n cached paths have indices below n, and the pool
   * holds a name for each. That the indices are also distinct (Injective,
   * so exactly 0 .. n-1 by IndicesArePrefix) is kept apart, by
   * LoadStepKeepsIndicesDistinct, as the other facts do not need it.
   */
  ghost predicate Consistent(c: CacheState)
  {
    && c.indexOf.Keys == c.sizeOf.Keys
    && "" !in c.indexOf
    && |c.indexOf| <= |c.ids|
    && (forall p :: p in c.indexOf ==> c.indexOf[p] < |c.indexOf|)
  }

  /** A map from paths to indices that gives distinct paths distinct indices. */
  ghost predicate Injective(m: map<string, nat>)
  {
    forall p, q :: p in m && q in m && p != q ==> m[p] != m[q]
  }

  /** The cache a freshly built data item starts with. */
  function EmptyCache(loader: Loader): (c: CacheState)
    ensures Consistent(c) && Injective(c.indexOf) && |c.indexOf| == 0 && |c.ids| == POOL_SIZE
  {
    CacheState(map[], map[], Pool(loader, POOL_SIZE))
  }

  /** Whether getTextureId gives a texture for path: it is cached or its image can be read. */
  predicate Loadable(c: CacheState, path: string, loader: Loader)
  {
    path != "" && (path in c.indexOf || path in loader.images)
  }

  /**
   * One getTextureId call: the new cache and the returned pair. The empty
   * path and an unreadable image give NO_TEXTURE and change nothing; a
   * cached path gives its name and size; a new path takes the next index,
   * and the pool grows by one name when every name is in use.
   */
  function LoadStep(c: CacheState, path: string, loader: Loader): (r: (CacheState, TexturePair))
    requires Consistent(c)
    ensures Consistent(r.0)
    ensures r.1.name != 0 <==> Loadable(c, path, loader)
  {
    if path == "" then (c, NO_TEXTURE)
    else if path in c.indexOf then (c, TexturePair(c.ids[c.indexOf[path]], c.sizeOf[path]))
    else if path !in loader.images then (c, NO_TEXTURE)
    else
      var n := |c.indexOf|;
      var ids := if n < |c.ids| then c.ids else c.ids + [loader.gen(n)];
      var c' := CacheState(c.indexOf[path := n], c.sizeOf[path := loader.images[path]], ids);
      (c', TexturePair(ids[n], loader.images[path]))
  }

  /** A new path takes an index no cached path has, so indices stay distinct. */
  lemma LoadStepKeepsIndicesDistinct(c: CacheState, path: string, loader: Loader)
    requires Consistent(c) && Injective(c.indexOf)
    ensures Injective(LoadStep(c, path, loader).0.indexOf)
  {
    if path != "" && path !in c.indexOf && path in loader.images {
      assert LoadStep(c, path, loader).0.indexOf == c.indexOf[path := |c.indexOf|];
    }
  }

  /** Every entry of c is still in d with the same index and size, and d's pool extends c's. */
  ghost predicate Extends(c: CacheState, d: CacheState)
  {
    && (forall p :: p in c.indexOf ==> p in d.indexOf && d.indexOf[p] == c.indexOf[p])
    && (forall p :: p in c.sizeOf ==> p in d.sizeOf && d.sizeOf[p] == c.sizeOf[p])
    && |c.ids| <= |d.ids| && c.ids == d.ids[..|c.ids|]
  }

  /** Every path cached in d was cached in c or has a readable image. */
  ghost predicate GrowsWithin(c: CacheState, d: CacheState, loader: Loader)
  {
    forall p :: p in d.indexOf ==> p in c.indexOf || p in loader.images
  }

  /** d keeps everything c cached and adds only readable images. */
  ghost predicate Grows(c: CacheState, d: CacheState, loader: Loader)
  {
    Extends(c, d) && GrowsWithin(c, d, loader)
  }

  /**
   * getTextureId never forgets or changes a cached path, nor a name of the
   * pool, and only caches paths whose image it read.
   */
  lemma LoadStepExtends(c: CacheState, path: string, loader: Loader)
    requires Consistent(c)
    ensures Extends(c, LoadStep(c, path, loader).0)
    ensures GrowsWithin(c, LoadStep(c, path, loader).0, loader)
  {
    if path != "" && path !in c.indexOf && path in loader.images {
      var d := LoadStep(c, path, loader).0;
      var n := |c.indexOf|;
      assert d.indexOf == c.indexOf[path := n];
      assert d.sizeOf == c.sizeOf[path := loader.images[path]];
      assert c.ids == d.ids[..|c.ids|];
    }
  }

  /** Whether a path loads does not change while the cache only grows by readable images. */
  lemma LoadableIsStable(c: CacheState, d: CacheState, path: string, loader: Loader)
    requires Extends(c, d) && GrowsWithin(c, d, loader)
    ensures Loadable(d, path, loader) <==> Loadable(c, path, loader)
  {
  }

  lemma GrowsWithinTransitive(c: CacheState, d: CacheState, e: CacheState, loader: Loader)
    requires GrowsWithin(c, d, loader) && GrowsWithin(d, e, loader)
    ensures GrowsWithin(c, e, loader)
  {
  }

  /** The empty path gives (0, (0, 0)) and leaves the cache alone. */
  lemma EmptyPathGivesNoTexture(c: CacheState, loader: Loader)
    requires Consistent(c)
    ensures LoadStep(c, "", loader) == (c, NO_TEXTURE)
  {
  }

  /** A cached path gives the pool's name at its index and its cached size, and changes nothing. */
  lemma HitReturnsCachedEntry(c: CacheState, path: string, loader: Loader)
    requires Consistent(c) && path in c.indexOf
    ensures c.indexOf[path] < |c.ids|
    ensures LoadStep(c, path, loader) == (c, TexturePair(c.ids[c.indexOf[path]], c.sizeOf[path]))
  {
  }

  /** Asking twice for the same path is asking once: same result, same cache. */
  lemma LoadTwiceIsLoadOnce(c: CacheState, path: string, loader: Loader)
    requires Consistent(c)
    ensures var (c1, r1) := LoadStep(c, path, loader);
            LoadStep(c1, path, loader) == (c1, r1)
  {
  }

  /**
   * An unreadable image gives (0, (0, 0)) and is not remembered: once the
   * file can be read, the next call loads it.
   */
  lemma FailureIsNotMemoised(c: CacheState, path: string, loader: Loader, later: Loader)
    requires Consistent(c) && path != "" && path !in c.indexOf && path !in loader.images
    requires path in later.images
    ensures LoadStep(c, path, loader) == (c, NO_TEXTURE)
    ensures var (c1, r1) := LoadStep(LoadStep(c, path, loader).0, path, later);
            path in c1.indexOf && r1.name != 0 && r1.size == later.images[path]
  {
  }

  /**
   * A new readable path takes index n = the number of cached paths, goes
   * into both maps, and gets the pool's name at n; the pool grows by exactly
   * one name, the one glGenTextures gives for slot n, only when all n names
   * were in use.
   */
  lemma MissTakesNextIndex(c: CacheState, path: string, loader: Loader)
    requires Consistent(c) && path != "" && path !in c.indexOf && path in loader.images
    ensures var (c1, r1) := LoadStep(c, path, loader);
            var n := |c.indexOf|;
            && c1.indexOf == c.indexOf[path := n]
            && c1.sizeOf == c.sizeOf[path := loader.images[path]]
            && n < |c1.ids| && r1 == TexturePair(c1.ids[n], loader.images[path])
            && (n < |c.ids| ==> c1.ids == c.ids)
            && (n == |c.ids| ==> c1.ids == c.ids + [loader.gen(n)])
  {
  }

  /** An injective map has no more paths than the set its indices are drawn from. */
  lemma {:induction false} InjectiveMapIsSmall(m: map<string, nat>, s: set<nat>)
    requires Injective(m) && m.Values <= s
    ensures |m| <= |s|
    decreases |m|
  {
    if m != map[] {
      var p :| p in m;
      var m' := m - {p};
      var s' := s - {m[p]};
      assert m.Values == m'.Values + {m[p]} by {
        forall i | i in m.Values ensures i in m'.Values + {m[p]} {
          var q :| q in m && m[q] == i;
          if q != p { assert m'[q] == i; }
        }
        forall i | i in m'.Values ensures i in m.Values {
          var q :| q in m' && m'[q] == i;
          assert m[q] == i;
        }
      }
      assert m'.Values <= s' by {
        forall i | i in m'.Values ensures i in s' {
          var q :| q in m' && m'[q] == i;
          assert q != p;
        }
      }
      InjectiveMapIsSmall(m', s');
      assert m.Keys == m'.Keys + {p};
    }
  }

  /**
   * The indices in use are exactly 0 .. n-1 for n cached paths: each names a
   * slot of the pool, and no slot is named twice or left out below n.
   */
  lemma IndicesArePrefix(c: CacheState)
    requires Consistent(c) && Injective(c.indexOf)
    ensures c.indexOf.Values == Range(|c.indexOf|)
    ensures forall p :: p in c.indexOf ==> c.indexOf[p] < |c.ids|
  {
    var n := |c.indexOf|;
    forall i | 0 <= i < n ensures i in c.indexOf.Values {
      if i !in c.indexOf.Values {
        InjectiveMapIsSmall(c.indexOf, Range(n) - {i});
      }
    }
  }

  /** The cache after getTextureId is called for each path in turn. */
  function LoadAll(c: CacheState, paths: seq<string>, loader: Loader): (d: CacheState)
    requires Consistent(c)
    ensures Consistent(d)
    decreases |paths|
  {
    if paths == [] then c else LoadAll(LoadStep(c, paths[0], loader).0, paths[1..], loader)
  }

  lemma ExtendsTransitive(c: CacheState, d: CacheState, e: CacheState)
    requires Extends(c, d) && Extends(d, e)
    ensures Extends(c, e)
  {
    assert e.ids[..|c.ids|] == e.ids[..|d.ids|][..|c.ids|];
  }

  /**
   * A run of getTextureId calls keeps every cached entry and pool name, and
   * afterwards every path of the run that could be loaded is cached.
   */
  lemma {:induction false} LoadAllCaches(c: CacheState, paths: seq<string>, loader: Loader)
    requires Consistent(c)
    ensures Extends(c, LoadAll(c, paths, loader))
    ensures forall i :: 0 <= i < |paths| && Loadable(c, paths[i], loader) ==> paths[i] in LoadAll(c, paths, loader).indexOf
    decreases |paths|
  {
    if paths != [] {
      var c1 := LoadStep(c, paths[0], loader).0;
      var d := LoadAll(c1, paths[1..], loader);
      LoadStepExtends(c, paths[0], loader);
      LoadAllCaches(c1, paths[1..], loader);
      ExtendsTransitive(c, c1, d);
      forall i | 0 <= i < |paths| && Loadable(c, paths[i], loader) ensures paths[i] in d.indexOf {
        if i > 0 {
          assert paths[i] == paths[1..][i - 1];
          assert Loadable(c1, paths[1..][i - 1], loader);
        }
      }
    }
  }

  /**
   * MyceliaDataItem: the texture cache fields, the version of the graph the
   * compiled display list was built from, and that list's contents.
   */
  class MyceliaDataItem {
    var textureIndexMap: map<string, nat>
    var textureSizeMap: map<string, Size>
    var textureIds: seq<TextureName>
    var graphListVersion: int
    var graphList: seq<DrawItem>

    function Cache(): CacheState
      reads this
    {
      CacheState(textureIndexMap, textureSizeMap, textureIds)
    }

    ghost predicate Valid()
      reads this
    {
      Consistent(Cache()) && Injective(textureIndexMap)
    }

    /** Reserves POOL_SIZE texture names, starts with empty maps and graph list version 0. */
    constructor(loader: Loader)
      ensures Valid()
      ensures Cache() == EmptyCache(loader)
      ensures graphListVersion == 0 && graphList == []
    {
      textureIndexMap := map[];
      textureSizeMap := map[];
      textureIds := Pool(loader, POOL_SIZE);
      graphListVersion := 0;
      graphList := [];
    }

    /** getTextureId: the pair for imagePath, caching a newly read image. */
    method GetTextureId(imagePath: string, loader: Loader) returns (r: TexturePair)
      requires Valid()
      modifies this`textureIndexMap, this`textureSizeMap, this`textureIds
      ensures Valid()
      ensures Cache() == LoadStep(old(Cache()), imagePath, loader).0
      ensures r == LoadStep(old(Cache()), imagePath, loader).1
    {
      if imagePath == "" {
        return NO_TEXTURE;
      }
      if imagePath in textureIndexMap {
        HitReturnsCachedEntry(Cache(), imagePath, loader);
        return TexturePair(textureIds[textureIndexMap[imagePath]], textureSizeMap[imagePath]);
      }
      if imagePath !in loader.images {
        return NO_TEXTURE;
      }
      var size := loader.images[imagePath];
      var numCachedTextures := |textureIndexMap|;
      if numCachedTextures >= |textureIds| {
        // the pool is exhausted: generate one more name
        textureIds := textureIds + [loader.gen(numCachedTextures)];
      }
      var imageIdIndex := numCachedTextures;
      textureIndexMap := textureIndexMap[imagePath := imageIdIndex];
      textureSizeMap := textureSizeMap[imagePath := size];
      r := TexturePair(textureIds[imageIdIndex], size);
      MissTakesNextIndex(old(Cache()), imagePath, loader);
      LoadStepKeepsIndicesDistinct(old(Cache()), imagePath, loader);
    }
  }
}
