/** `PathIterator` (lab2/main.py, lab2/crawler.py): the items are fixed when the
    iterator is built, from a manifest file or from a directory scan; a cursor
    then walks them. */
module Cursor {
  import opened Wrappers
  import opened Text
  import opened Paths
  import opened Files
  import opened Scanner
  import opened Manifest

  /** `p.is_file() and p.suffix.lower() == ".csv"`. */
  predicate IsManifestFile(fs: Fs, p: Path) {
    IsFile(fs, p) && Lower(Suffix(Name(p))) == ".csv"
  }

  /** `Path(root) if root else p`: an absent or empty `root` means the source. */
  function BaseOf(source: Path, root: Option<Path>): Path {
    if root.Some? then root.value else source
  }

  /** What `PathIterator(source, root)` is built with, or the exception its
      constructor raises: the rows of a manifest file, else the scan of a
      directory relative to the base, else a `ValueError`. */
  function OpenItems(fs: Fs, source: Path, root: Option<Path>, extensions: set<string>): Result<seq<Pair>> {
    if IsManifestFile(fs, source) then Ok(ReadItems(DecodeRows(Lookup(fs, source).value.content)))
    else if IsDir(fs, source) then Scan(RGlob(fs, source), BaseOf(source, root), extensions)
    else Err(InvalidSource)
  }

  /** The constructor fails exactly when the source is neither a manifest file
      nor a directory (`ValueError` about the source), or when it is a
      directory holding an asset outside the base (`ValueError` from
      `relative_to`); reading a manifest never fails. */
  lemma OpenFailsIff(fs: Fs, source: Path, root: Option<Path>, extensions: set<string>)
    ensures var r := OpenItems(fs, source, root, extensions);
      r.Err? <==>
        (!IsManifestFile(fs, source) && !IsDir(fs, source))
        || (!IsManifestFile(fs, source) && IsDir(fs, source)
            && !AllBelow(RGlob(fs, source), BaseOf(source, root), extensions))
    ensures var r := OpenItems(fs, source, root, extensions);
      r.Err? ==> r.error == (if IsDir(fs, source) then NotRelative else InvalidSource)
  {
    ScanSucceedsIff(RGlob(fs, source), BaseOf(source, root), extensions);
  }

  /** A directory iterated relative to itself, or to any ancestor of itself,
      never fails, and lists the pairs `create_pairs` would. */
  lemma OpenDirectoryUnderBase(fs: Fs, source: Path, base: Path, extensions: set<string>)
    requires IsDir(fs, source) && !IsManifestFile(fs, source)
    requires |base| <= |source| && source[..|base|] == base
    ensures OpenItems(fs, source, Some(base), extensions) == Scan(RGlob(fs, source), base, extensions)
    ensures OpenItems(fs, source, Some(base), extensions).Ok?
  {
    var listing := RGlob(fs, source);
    forall i | 0 <= i < |listing| ensures StrictlyUnder(listing[i].path, base) {
      var p := listing[i].path;
      assert p[..|source|] == source;
      assert p[..|base|] == source[..|base|];
    }
    ScanBelowBaseSucceeds(listing, base, extensions);
  }

  /** Iterating a manifest written by `write_csv` for clean pairs gives back
      exactly those pairs. */
  lemma OpenWrittenManifest(fs: Fs, source: Path, root: Option<Path>, extensions: set<string>, pairs: seq<Pair>)
    requires Lookup(fs, source) == Some(File(source, EncodeRecords([Header] + pairs)))
    requires Lower(Suffix(Name(source))) == ".csv"
    requires forall k :: 0 <= k < |pairs| ==> Clean(pairs[k].abs) && Clean(pairs[k].rel)
    ensures OpenItems(fs, source, root, extensions) == Ok(pairs)
  {
    ManifestRoundTrip(pairs);
  }

  /** The iterator object: `items` never changes after construction; `index`
      is `_index`. */
  class PathIterator {
    const items: seq<Pair>
    var index: nat

    /** The cursor never runs past the end of `items`. */
    ghost predicate Valid()
      reads this
    {
      index <= |items|
    }

    /** The tail of `__init__`: the items it collected, `_index = 0`. */
    constructor (items: seq<Pair>)
      ensures this.items == items && index == 0
      ensures Valid()
    {
      this.items := items;
      index := 0;
    }

    /** `__iter__`: rewind to the first item. */
    method Iter()
      modifies this
      ensures index == 0
      ensures Valid()
    {
      index := 0;
    }

    /** `__next__`: the item under the cursor and a step forward, or `None`
        (StopIteration) with nothing changed once the items are used up. */
    method Next() returns (r: Option<Pair>)
      requires Valid()
      modifies this
      ensures old(index) < |items| ==> r == Some(items[old(index)]) && index == old(index) + 1
      ensures old(index) >= |items| ==> r == None && index == old(index)
      ensures Valid()
    {
      if index >= |items| {
        return None;
      }
      r := Some(items[index]);
      index := index + 1;
    }

    /** `next()` as the viewer calls it: on StopIteration it rewinds and asks
        once more, so the items repeat in a cycle; with no items the second
        StopIteration escapes, here as `None`. */
    method NextWrapping() returns (r: Option<Pair>)
      requires Valid()
      modifies this
      ensures var k := if old(index) < |items| then old(index) else 0;
        if |items| == 0 then r == None && index == 0
        else r == Some(items[k]) && index == k + 1
      ensures Valid()
    {
      r := Next();
      if r.None? {
        Iter();
        r := Next();
      }
    }

    /** `for el in iterator`: rewind, then take items until StopIteration.  The
        loop yields every item once, in order. */
    method Drain() returns (out: seq<Pair>)
      modifies this
      ensures out == items
      ensures index == |items| && Valid()
    {
      Iter();
      out := [];
      while true
        invariant Valid()
        invariant out == items[..index]
        decreases |items| - index
      {
        var r := Next();
        if r.None? {
          break;
        }
        out := out + [r.value];
      }
      assert items[..index] == items;
    }
  }

  /** `PathIterator(source, root)`: the manifest branch runs the reading loop
      over the file's rows, the directory branch runs the scanning loop, and
      the result is a fresh iterator at the first item. */
  method Open(fs: Fs, source: Path, root: Option<Path>, extensions: set<string>) returns (r: Result<PathIterator>)
    ensures r.Err? <==> OpenItems(fs, source, root, extensions).Err?
    ensures r.Err? ==> r.error == OpenItems(fs, source, root, extensions).error
    ensures r.Ok? ==>
      fresh(r.value) && r.value.index == 0 &&
      r.value.items == OpenItems(fs, source, root, extensions).value
  {
    var items: seq<Pair>;
    if IsManifestFile(fs, source) {
      items := LoadRows(DecodeRows(Lookup(fs, source).value.content));
    } else if IsDir(fs, source) {
      var scanned := ScanPairs(RGlob(fs, source), BaseOf(source, root), extensions);
      if scanned.Err? {
        return Err(scanned.error);
      }
      items := scanned.value;
    } else {
      return Err(InvalidSource);
    }
    var it := new PathIterator(items);
    return Ok(it);
  }
}
