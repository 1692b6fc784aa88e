/** The asset classifier and the pair builder: `EXTENSIONS`, `create_pairs` and
    the directory branch of `PathIterator.__init__`, in lab2/main.py and
    lab2/crawler.py. */
module Scanner {
  import opened Wrappers
  import opened Text
  import opened Paths
  import opened Files

  /** One manifest record, `[str(abs_path), str(rel_path)]`. */
  datatype Pair = Pair(abs: string, rel: string)

  /** `fp.is_file() and fp.suffix.lower() in EXTENSIONS`. */
  predicate IsAsset(e: Entry, extensions: set<string>) {
    e.File? && Lower(Suffix(Name(e.path))) in extensions
  }

  /** Whether a file is an asset does not depend on the case of its name. */
  lemma IsAssetIgnoresCase(a: Path, b: Path, ca: string, cb: string, extensions: set<string>)
    requires Lower(Name(a)) == Lower(Name(b))
    ensures IsAsset(File(a, ca), extensions) <==> IsAsset(File(b, cb), extensions)
  {
    SuffixIgnoresCase(Name(a), Name(b));
  }

  /** A file named `stem + ext`, with a non-empty stem and a dotted extension
      whose lower-case form is recognised, is an asset. */
  lemma AssetByExtension(dir: Path, stem: string, ext: string, content: string, extensions: set<string>)
    requires stem != "" && |ext| >= 2 && ext[0] == '.' && '.' !in ext[1..]
    requires Lower(ext) in extensions
    ensures IsAsset(File(dir + [stem + ext], content), extensions)
  {
    SuffixOfStemAndExtension(stem, ext);
  }

  /** The pair for an entry, when `relative_to` succeeds. */
  function PairFor(e: Entry, base: Path): Option<Pair> {
    match RelativeTo(e.path, base)
    case Some(rel) => Some(Pair(AbsText(e.path), RelText(rel)))
    case None => None
  }

  /** What the scanning loop produces over `listing`: one pair per asset in
      order, or the `ValueError` of the first asset outside `base`. */
  function Scan(listing: seq<Entry>, base: Path, extensions: set<string>): Result<seq<Pair>> {
    if listing == [] then Ok([])
    else
      var e := listing[|listing| - 1];
      match Scan(listing[..|listing| - 1], base, extensions)
      case Err(err) => Err(err)
      case Ok(pairs) =>
        if !IsAsset(e, extensions) then Ok(pairs)
        else match PairFor(e, base)
          case None => Err(NotRelative)
          case Some(pair) => Ok(pairs + [pair])
  }

  /** The reference: the assets of a listing, in order. */
  function Assets(listing: seq<Entry>, extensions: set<string>): (r: seq<Entry>)
    ensures forall e :: e in r <==> e in listing && IsAsset(e, extensions)
    ensures |r| <= |listing|
  {
    if listing == [] then []
    else
      var e := listing[|listing| - 1];
      Assets(listing[..|listing| - 1], extensions) + (if IsAsset(e, extensions) then [e] else [])
  }

  lemma {:induction false} ScanErrorSticks(listing: seq<Entry>, n: nat, base: Path, extensions: set<string>)
    requires n <= |listing| && Scan(listing[..n], base, extensions).Err?
    ensures Scan(listing, base, extensions) == Scan(listing[..n], base, extensions)
  {
    if n < |listing| {
      var shorter := listing[..|listing| - 1];
      assert shorter[..n] == listing[..n];
      ScanErrorSticks(shorter, n, base, extensions);
    } else {
      assert listing[..n] == listing;
    }
  }

  /** Every asset of the listing lies below `base`. */
  predicate AllBelow(listing: seq<Entry>, base: Path, extensions: set<string>) {
    forall i :: 0 <= i < |listing| && IsAsset(listing[i], extensions) ==> RelativeTo(listing[i].path, base).Some?
  }

  lemma AllBelowSnoc(listing: seq<Entry>, base: Path, extensions: set<string>)
    requires listing != []
    ensures var e := listing[|listing| - 1];
      AllBelow(listing, base, extensions) <==>
        AllBelow(listing[..|listing| - 1], base, extensions) &&
        (IsAsset(e, extensions) ==> RelativeTo(e.path, base).Some?)
  {
    var shorter := listing[..|listing| - 1];
    assert forall i :: 0 <= i < |shorter| ==> listing[i] == shorter[i];
  }

  /** The scan succeeds exactly when every asset lies below `base`; otherwise
      it fails with `NotRelative`. */
  lemma {:induction false} ScanSucceedsIff(listing: seq<Entry>, base: Path, extensions: set<string>)
    ensures Scan(listing, base, extensions).Ok? <==> AllBelow(listing, base, extensions)
    ensures Scan(listing, base, extensions).Err? ==> Scan(listing, base, extensions).error == NotRelative
  {
    if listing == [] {
    } else {
      ScanSucceedsIff(listing[..|listing| - 1], base, extensions);
      AllBelowSnoc(listing, base, extensions);
    }
  }

  /** A successful scan has one pair per asset, in traversal order, each made
      of the asset's absolute text and its text relative to `base`. */
  lemma {:induction false} ScanListsAssets(listing: seq<Entry>, base: Path, extensions: set<string>)
    requires Scan(listing, base, extensions).Ok?
    ensures var pairs, assets := Scan(listing, base, extensions).value, Assets(listing, extensions);
      |pairs| == |assets| &&
      forall k :: 0 <= k < |pairs| ==>
        RelativeTo(assets[k].path, base).Some? &&
        pairs[k] == Pair(AbsText(assets[k].path), RelText(RelativeTo(assets[k].path, base).value))
  {
    if listing == [] {
    } else {
      var shorter, e := listing[..|listing| - 1], listing[|listing| - 1];
      ScanListsAssets(shorter, base, extensions);
      var before, assetsBefore := Scan(shorter, base, extensions).value, Assets(shorter, extensions);
      if IsAsset(e, extensions) {
        var pairs, assets := Scan(listing, base, extensions).value, Assets(listing, extensions);
        assert pairs == before + [PairFor(e, base).value];
        assert assets == assetsBefore + [e];
        forall k | 0 <= k < |pairs|
          ensures RelativeTo(assets[k].path, base).Some? &&
            pairs[k] == Pair(AbsText(assets[k].path), RelText(RelativeTo(assets[k].path, base).value))
        {
          if k < |before| {
            assert pairs[k] == before[k] && assets[k] == assetsBefore[k];
          } else {
            assert assets[k] == e;
          }
        }
      } else {
      }
    }
  }

  /** Every pair of a successful scan is anchored at `base`: its absolute text
      is the text of `base` followed by its relative text, so no relative path
      leaves `base`. */
  lemma ScanPairsUnderBase(listing: seq<Entry>, base: Path, extensions: set<string>, k: nat)
    requires Scan(listing, base, extensions).Ok?
    requires k < |Scan(listing, base, extensions).value|
    requires forall e :: e in listing ==> StrictlyUnder(e.path, base)
    ensures var pair := Scan(listing, base, extensions).value[k];
      pair.abs == (if base == [] then "/" + pair.rel else AbsText(base) + "/" + pair.rel)
  {
    ScanListsAssets(listing, base, extensions);
    var assets := Assets(listing, extensions);
    var a := assets[k];
    assert a in listing;
    var rel := RelativeTo(a.path, base).value;
    AbsTextUnder(base, rel);
  }

  /** Scanning entries that all lie below `base` never fails. */
  lemma {:induction false} ScanBelowBaseSucceeds(listing: seq<Entry>, base: Path, extensions: set<string>)
    requires forall i :: 0 <= i < |listing| ==> StrictlyUnder(listing[i].path, base)
    ensures Scan(listing, base, extensions).Ok?
  {
    ScanSucceedsIff(listing, base, extensions);
  }

  /** The scanning loop shared by `create_pairs` and the directory branch of
      `PathIterator.__init__`. */
  method ScanPairs(listing: seq<Entry>, base: Path, extensions: set<string>) returns (r: Result<seq<Pair>>)
    ensures r == Scan(listing, base, extensions)
  {
    var pairs: seq<Pair> := [];
    var i := 0;
    while i < |listing|
      invariant 0 <= i <= |listing|
      invariant Scan(listing[..i], base, extensions) == Ok(pairs)
    {
      var e := listing[i];
      assert listing[..i + 1][..i] == listing[..i];
      if IsAsset(e, extensions) {
        var rel := RelativeTo(e.path, base);
        if rel.None? {
          ScanErrorSticks(listing, i + 1, base, extensions);
          return Err(NotRelative);
        }
        pairs := pairs + [Pair(AbsText(e.path), RelText(rel.value))];
      }
      i := i + 1;
    }
    assert listing[..i] == listing;
    return Ok(pairs);
  }

  /** `create_pairs(root)`: the pairs of every asset below `root`, relative to
      `root`.  It cannot fail, since everything `rglob` yields lies below `root`. */
  method CreatePairs(fs: Fs, root: Path, extensions: set<string>) returns (r: Result<seq<Pair>>)
    ensures r == Scan(RGlob(fs, root), root, extensions)
    ensures r.Ok?
  {
    ScanBelowBaseSucceeds(RGlob(fs, root), root, extensions);
    r := ScanPairs(RGlob(fs, root), root, extensions);
  }
}
