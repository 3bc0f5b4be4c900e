/** The image service: one upload becomes three resized JPEG/WebP pairs and an untouched
    copy on the public disk, and the caller gets back the map from variant name to path.
    The pixel work of each write is opaque; whether it succeeds is an oracle. */
module ImageOptimization {

  import opened Wrappers
  import Php

  datatype Format = Jpg | Webp

  /** What a write leaves on the disk: an encoding made with the arguments passed to the image
      library (target width, quality, format), or the uploaded bytes as they are. */
  datatype Blob = Resized(width: nat, quality: nat, format: Format) | OriginalCopy

  const Quality: nat := 80
  const Sizes: seq<(string, nat)> := [("thumbnail", 300), ("medium", 800), ("large", 1200)]

  /** The public disk. `log` records the order in which paths were written. */
  class Disk {
    var files: map<string, Blob>
    ghost var log: seq<string>

    constructor (files: map<string, Blob>)
      ensures this.files == files && log == []
    {
      this.files := files;
      log := [];
    }

    method Put(path: string, blob: Blob)
      modifies this
      ensures files == old(files)[path := blob] && log == old(log) + [path]
    {
      files := files[path := blob];
      log := log + [path];
    }

    method Delete(path: string)
      modifies this
      ensures files == old(files) - {path} && log == old(log)
    {
      files := files - {path};
    }
  }

  // ---------------------------------------------------------------- the plan of writes

  /** One write the service performs: the result key, the path, the content. */
  datatype Write = Write(key: string, path: string, blob: Blob)

  function Suffix(f: Format): string {
    match f
    case Jpg => ".jpg"
    case Webp => ".webp"
  }

  function PathPrefix(base: string): string {
    "articles/" + base + "_"
  }

  function VariantPath(base: string, name: string, f: Format): string {
    PathPrefix(base) + (name + Suffix(f))
  }

  /** The lower-cased client extension, or "jpg" when that is "" or "0". */
  function OriginalExtension(clientExt: string): (e: string)
    ensures !Php.FalsyString(e)
    ensures Php.FalsyString(Php.Lower(clientExt)) ==> e == "jpg"
    ensures !Php.FalsyString(Php.Lower(clientExt)) ==> e == Php.Lower(clientExt)
  {
    var lowered := Php.Lower(clientExt);
    if Php.FalsyString(lowered) then "jpg" else lowered
  }

  function OriginalPath(base: string, clientExt: string): string {
    PathPrefix(base) + ("orig." + OriginalExtension(clientExt))
  }

  /** The two writes of each size, JPEG first. */
  function SizeWrites(base: string, sizes: seq<(string, nat)>): seq<Write> {
    if sizes == [] then []
    else
      var (name, width) := sizes[0];
      [Write(name, VariantPath(base, name, Jpg), Resized(width, Quality, Jpg)),
       Write(name + "_webp", VariantPath(base, name, Webp), Resized(width, Quality, Webp))]
      + SizeWrites(base, sizes[1..])
  }

  /** All seven writes in the order the service performs them. */
  function Plan(base: string, clientExt: string): (r: seq<Write>)
    ensures |r| == 2 * |Sizes| + 1
    ensures r[|r| - 1] == Write("original", OriginalPath(base, clientExt), OriginalCopy)
  {
    SizeWritesAt(base, Sizes, 0);
    SizeWrites(base, Sizes) + [Write("original", OriginalPath(base, clientExt), OriginalCopy)]
  }

  /** The result map after a run of writes: a key is present exactly when some write has it. */
  function Results(ws: seq<Write>): (r: map<string, string>)
    ensures forall key :: key in r <==> exists k :: 0 <= k < |ws| && ws[k].key == key
  {
    if ws == [] then map[]
    else
      var init := ws[..|ws| - 1];
      assert forall k :: 0 <= k < |init| ==> init[k] == ws[k];
      Results(init)[ws[|ws| - 1].key := ws[|ws| - 1].path]
  }

  /** The disk after a run of writes. */
  function Apply(files: map<string, Blob>, ws: seq<Write>): map<string, Blob> {
    if ws == [] then files else Apply(files, ws[..|ws| - 1])[ws[|ws| - 1].path := ws[|ws| - 1].blob]
  }

  function Paths(ws: seq<Write>): seq<string> {
    if ws == [] then [] else Paths(ws[..|ws| - 1]) + [ws[|ws| - 1].path]
  }

  /** How many writes of a run succeed before the first one that fails. */
  function Completed(ws: seq<Write>, writeOk: (string, Blob) -> bool): (n: nat)
    ensures n <= |ws|
    ensures forall k :: 0 <= k < n ==> writeOk(ws[k].path, ws[k].blob)
    ensures n < |ws| ==> !writeOk(ws[n].path, ws[n].blob)
  {
    if ws == [] then 0
    else if writeOk(ws[0].path, ws[0].blob) then
      var n := 1 + Completed(ws[1..], writeOk);
      assert forall k :: 1 <= k < n ==> ws[k] == ws[1..][k - 1];
      n
    else 0
  }

  /** Entries 2i and 2i + 1 of the size writes are the JPEG and the WebP of size i. */
  lemma {:induction false} SizeWritesAt(base: string, sizes: seq<(string, nat)>, i: nat)
    requires i < |sizes|
    ensures |SizeWrites(base, sizes)| == 2 * |sizes|
    ensures SizeWrites(base, sizes)[2 * i]
         == Write(sizes[i].0, VariantPath(base, sizes[i].0, Jpg), Resized(sizes[i].1, Quality, Jpg))
    ensures SizeWrites(base, sizes)[2 * i + 1]
         == Write(sizes[i].0 + "_webp", VariantPath(base, sizes[i].0, Webp), Resized(sizes[i].1, Quality, Webp))
  {
    if i > 0 {
      SizeWritesAt(base, sizes[1..], i - 1);
    } else if |sizes| > 1 {
      SizeWritesAt(base, sizes[1..], 0);
    }
  }

  /** The seven writes, in order: thumbnail, medium and large, each JPEG then WebP, at widths
      300, 800 and 1200 and quality 80; then the original copy. */
  lemma PlanOrder(base: string, clientExt: string)
    ensures Plan(base, clientExt) == [
      Write("thumbnail", VariantPath(base, "thumbnail", Jpg), Resized(300, 80, Jpg)),
      Write("thumbnail_webp", VariantPath(base, "thumbnail", Webp), Resized(300, 80, Webp)),
      Write("medium", VariantPath(base, "medium", Jpg), Resized(800, 80, Jpg)),
      Write("medium_webp", VariantPath(base, "medium", Webp), Resized(800, 80, Webp)),
      Write("large", VariantPath(base, "large", Jpg), Resized(1200, 80, Jpg)),
      Write("large_webp", VariantPath(base, "large", Webp), Resized(1200, 80, Webp)),
      Write("original", OriginalPath(base, clientExt), OriginalCopy)]
  {
    var sw := SizeWrites(base, Sizes);
    SizeWritesAt(base, Sizes, 0);
    SizeWritesAt(base, Sizes, 1);
    SizeWritesAt(base, Sizes, 2);
    assert "thumbnail" + "_webp" == "thumbnail_webp";
    assert "medium" + "_webp" == "medium_webp";
    assert "large" + "_webp" == "large_webp";
  }

  /** Entries 2i and 2i + 1 of the plan are size i's two encodings; the last is the original. */
  lemma PlanAt(base: string, clientExt: string, i: nat)
    requires i < |Sizes|
    ensures |Plan(base, clientExt)| == 7
    ensures Plan(base, clientExt)[2 * i]
         == Write(Sizes[i].0, VariantPath(base, Sizes[i].0, Jpg), Resized(Sizes[i].1, Quality, Jpg))
    ensures Plan(base, clientExt)[2 * i + 1]
         == Write(Sizes[i].0 + "_webp", VariantPath(base, Sizes[i].0, Webp), Resized(Sizes[i].1, Quality, Webp))
    ensures Plan(base, clientExt)[6] == Write("original", OriginalPath(base, clientExt), OriginalCopy)
  {
    SizeWritesAt(base, Sizes, i);
  }

  /** The result keys of the seven writes: the names the frontend reads. */
  const VariantKeys: seq<string> :=
    ["thumbnail", "thumbnail" + "_webp", "medium", "medium" + "_webp", "large", "large" + "_webp", "original"]

  lemma VariantKeysDistinct()
    ensures forall i, j :: 0 <= i < j < 7 ==> VariantKeys[i] != VariantKeys[j]
  {
    forall i, j | 0 <= i < j < 7 ensures VariantKeys[i] != VariantKeys[j] {
      assert |VariantKeys[i]| != |VariantKeys[j]|;
    }
  }

  lemma PlanKeys(base: string, clientExt: string)
    ensures |Plan(base, clientExt)| == 7
    ensures forall i :: 0 <= i < 7 ==> Plan(base, clientExt)[i].key == VariantKeys[i]
  {
    var plan := Plan(base, clientExt);
    PlanAt(base, clientExt, 0);
    assert plan[0].key == VariantKeys[0];
    assert plan[1].key == VariantKeys[1];
    PlanAt(base, clientExt, 1);
    assert plan[2].key == VariantKeys[2];
    assert plan[3].key == VariantKeys[3];
    PlanAt(base, clientExt, 2);
    assert plan[4].key == VariantKeys[4];
    assert plan[5].key == VariantKeys[5];
    assert plan[6].key == VariantKeys[6];
  }

  /** The last write with a key decides its entry. */
  lemma {:induction false} ResultsAt(ws: seq<Write>, k: nat)
    requires k < |ws|
    requires forall j :: k < j < |ws| ==> ws[j].key != ws[k].key
    ensures ws[k].key in Results(ws) && Results(ws)[ws[k].key] == ws[k].path
  {
    if k < |ws| - 1 {
      ResultsAt(ws[..|ws| - 1], k);
    }
  }

  /** The result map has exactly the seven variant keys, each mapped to the path written. */
  lemma ResultKeys(base: string, clientExt: string)
    ensures var r := Results(Plan(base, clientExt));
      && |Plan(base, clientExt)| == 7
      && (forall key :: key in r <==> key in VariantKeys)
      && (forall i :: 0 <= i < 7 ==> VariantKeys[i] in r && r[VariantKeys[i]] == Plan(base, clientExt)[i].path)
  {
    var plan := Plan(base, clientExt);
    PlanKeys(base, clientExt);
    VariantKeysDistinct();
    forall key ensures key in Results(plan) <==> key in VariantKeys {
      if key in VariantKeys {
        var i :| 0 <= i < 7 && VariantKeys[i] == key;
        assert plan[i].key == key;
      }
    }
    forall i | 0 <= i < 7 ensures VariantKeys[i] in Results(plan) && Results(plan)[VariantKeys[i]] == plan[i].path {
      ResultsAt(plan, i);
    }
  }

  /** The `original` entry, which `store` saves as the article's image path. */
  lemma OriginalEntry(base: string, clientExt: string)
    ensures "original" in Results(Plan(base, clientExt))
    ensures Results(Plan(base, clientExt))["original"] == OriginalPath(base, clientExt)
  {
    PlanAt(base, clientExt, 0);
    ResultsAt(Plan(base, clientExt), 6);
  }

  lemma PrefixKeepsDifference(p: string, x: string, y: string)
    requires x != y
    ensures p + x != p + y
  {
    assert x == (p + x)[|p|..];
    assert y == (p + y)[|p|..];
  }

  /** What follows `articles/<base>_` in each of the seven paths. */
  function FileNames(clientExt: string): seq<string> {
    ["thumbnail" + ".jpg", "thumbnail" + ".webp", "medium" + ".jpg", "medium" + ".webp",
     "large" + ".jpg", "large" + ".webp", "orig." + OriginalExtension(clientExt)]
  }

  lemma FileNamesDistinct(clientExt: string)
    ensures forall i, j :: 0 <= i < j < 7 ==> FileNames(clientExt)[i] != FileNames(clientExt)[j]
  {
    var names := FileNames(clientExt);
    forall i, j | 0 <= i < j < 7 ensures names[i] != names[j] {
      var fi, fj := (|names[i]|, names[i][0]), (|names[j]|, names[j][0]);
      assert fi != fj;
    }
  }

  lemma PlanFileNames(base: string, clientExt: string)
    ensures |Plan(base, clientExt)| == 7
    ensures forall i :: 0 <= i < 7 ==> Plan(base, clientExt)[i].path == PathPrefix(base) + FileNames(clientExt)[i]
  {
    var names := FileNames(clientExt);
    var plan := Plan(base, clientExt);
    var p := PathPrefix(base);
    PlanAt(base, clientExt, 0);
    assert plan[0].path == p + names[0];
    assert plan[1].path == p + names[1];
    PlanAt(base, clientExt, 1);
    assert plan[2].path == p + names[2];
    assert plan[3].path == p + names[3];
    PlanAt(base, clientExt, 2);
    assert plan[4].path == p + names[4];
    assert plan[5].path == p + names[5];
    assert plan[6].path == p + names[6];
  }

  /** The seven paths are pairwise distinct. */
  lemma PlanPathsDistinct(base: string, clientExt: string)
    ensures var plan := Plan(base, clientExt);
      forall i, j :: 0 <= i < j < |plan| ==> plan[i].path != plan[j].path
  {
    PlanFileNames(base, clientExt);
    FileNamesDistinct(clientExt);
    var plan := Plan(base, clientExt);
    forall i, j | 0 <= i < j < 7 ensures plan[i].path != plan[j].path {
      PrefixKeepsDifference(PathPrefix(base), FileNames(clientExt)[i], FileNames(clientExt)[j]);
    }
  }

  /** The disk after the seven writes holds every planned path with its content. */
  lemma {:induction false} ApplyHolds(files: map<string, Blob>, ws: seq<Write>, k: nat)
    requires k < |ws|
    requires forall j :: k < j < |ws| ==> ws[j].path != ws[k].path
    ensures ws[k].path in Apply(files, ws) && Apply(files, ws)[ws[k].path] == ws[k].blob
  {
    if k < |ws| - 1 {
      ApplyHolds(files, ws[..|ws| - 1], k);
    }
  }

  /** One more write extends the disk, the log and the result map by that write. */
  lemma StepOnce(files: map<string, Blob>, ws: seq<Write>, k: nat)
    requires k < |ws|
    ensures Apply(files, ws[..k + 1]) == Apply(files, ws[..k])[ws[k].path := ws[k].blob]
    ensures Paths(ws[..k + 1]) == Paths(ws[..k]) + [ws[k].path]
    ensures Results(ws[..k + 1]) == Results(ws[..k])[ws[k].key := ws[k].path]
  {
    assert ws[..k + 1][..k] == ws[..k];
  }

  /** The first `n` writes of `plan` all succeeded and are on the disk and in the log. */
  ghost predicate Done(files: map<string, Blob>, log: seq<string>, files0: map<string, Blob>, log0: seq<string>,
                       plan: seq<Write>, n: nat, writeOk: (string, Blob) -> bool)
  {
    && n <= |plan|
    && (forall k :: 0 <= k < n ==> writeOk(plan[k].path, plan[k].blob))
    && files == Apply(files0, plan[..n])
    && log == log0 + Paths(plan[..n])
  }

  lemma DoneStep(files: map<string, Blob>, log: seq<string>, files0: map<string, Blob>, log0: seq<string>,
                 plan: seq<Write>, n: nat, writeOk: (string, Blob) -> bool)
    requires Done(files, log, files0, log0, plan, n, writeOk)
    requires n < |plan| && writeOk(plan[n].path, plan[n].blob)
    ensures Done(files[plan[n].path := plan[n].blob], log + [plan[n].path], files0, log0, plan, n + 1, writeOk)
  {
    StepOnce(files0, plan, n);
  }

  /** Once a write fails, or every write is done, `Completed` is the number done. */
  lemma DoneStop(files: map<string, Blob>, log: seq<string>, files0: map<string, Blob>, log0: seq<string>,
                 plan: seq<Write>, n: nat, writeOk: (string, Blob) -> bool)
    requires Done(files, log, files0, log0, plan, n, writeOk)
    requires n < |plan| ==> !writeOk(plan[n].path, plan[n].blob)
    ensures Completed(plan, writeOk) == n
  {
  }

  // ---------------------------------------------------------------- the service

  /** `saveResizedV2`: resize and encode, then put the bytes at `path`; the oracle says
      whether this succeeds, and a failing write leaves the disk as it was. */
  method SaveResized(disk: Disk, width: nat, quality: nat, path: string, format: Format,
                     writeOk: (string, Blob) -> bool) returns (ok: bool)
    modifies disk
    ensures ok == writeOk(path, Resized(width, quality, format))
    ensures disk.files == if ok then old(disk.files)[path := Resized(width, quality, format)] else old(disk.files)
    ensures disk.log == if ok then old(disk.log) + [path] else old(disk.log)
  {
    ok := writeOk(path, Resized(width, quality, format));
    if ok {
      disk.Put(path, Resized(width, quality, format));
    }
  }

  /** `storeAs('articles', name, 'public')`: copy the upload as it is. */
  method StoreOriginal(disk: Disk, path: string, writeOk: (string, Blob) -> bool) returns (ok: bool)
    modifies disk
    ensures ok == writeOk(path, OriginalCopy)
    ensures disk.files == if ok then old(disk.files)[path := OriginalCopy] else old(disk.files)
    ensures disk.log == if ok then old(disk.log) + [path] else old(disk.log)
  {
    ok := writeOk(path, OriginalCopy);
    if ok {
      disk.Put(path, OriginalCopy);
    }
  }

  /** One turn of the service's loop: the JPEG and then the WebP encoding of size `i`. `n` is
      the number of writes of the plan done afterwards; a failing write's path is returned. */
  method SaveSize(disk: Disk, base: string, clientExt: string, i: nat, writeOk: (string, Blob) -> bool,
                  ghost files0: map<string, Blob>, ghost log0: seq<string>)
    returns (failed: Option<string>, ghost n: nat)
    requires i < |Sizes|
    requires Done(disk.files, disk.log, files0, log0, Plan(base, clientExt), 2 * i, writeOk)
    modifies disk
    ensures 2 * i <= n <= 2 * i + 2 && n < |Plan(base, clientExt)|
    ensures Done(disk.files, disk.log, files0, log0, Plan(base, clientExt), n, writeOk)
    ensures failed.None? <==> n == 2 * i + 2
    ensures failed.Some? ==> !writeOk(Plan(base, clientExt)[n].path, Plan(base, clientExt)[n].blob)
    ensures failed.Some? ==> failed.value == Plan(base, clientExt)[n].path
  {
    ghost var plan := Plan(base, clientExt);
    var (name, width) := Sizes[i];
    PlanAt(base, clientExt, i);
    var jpegPath := VariantPath(base, name, Jpg);
    ghost var files1, log1 := disk.files, disk.log;
    var ok := SaveResized(disk, width, Quality, jpegPath, Jpg, writeOk);
    if !ok {
      return Some(jpegPath), 2 * i;
    }
    DoneStep(files1, log1, files0, log0, plan, 2 * i, writeOk);

    var webpPath := VariantPath(base, name, Webp);
    ghost var files2, log2 := disk.files, disk.log;
    ok := SaveResized(disk, width, Quality, webpPath, Webp, writeOk);
    if !ok {
      return Some(webpPath), 2 * i + 1;
    }
    DoneStep(files2, log2, files0, log0, plan, 2 * i + 1, writeOk);
    return None, 2 * i + 2;
  }

  /** `optimize`: the seven writes of `Plan` in order. The first failing write ends the run with
      its path as the error; the writes before it stay on disk. */
  method Optimize(disk: Disk, base: string, clientExt: string, writeOk: (string, Blob) -> bool)
    returns (r: Result<map<string, string>, string>)
    modifies disk
    ensures disk.files == Apply(old(disk.files), Plan(base, clientExt)[..Completed(Plan(base, clientExt), writeOk)])
    ensures disk.log == old(disk.log) + Paths(Plan(base, clientExt)[..Completed(Plan(base, clientExt), writeOk)])
    ensures r.Success? <==> Completed(Plan(base, clientExt), writeOk) == |Plan(base, clientExt)|
    ensures r.Success? ==> r.value == Results(Plan(base, clientExt))
    ensures r.Failure? ==> r.error == Plan(base, clientExt)[Completed(Plan(base, clientExt), writeOk)].path
  {
    ghost var plan := Plan(base, clientExt);
    ghost var files0, log0 := disk.files, disk.log;
    PlanAt(base, clientExt, 0);
    assert plan[..0] == [];
    var results: map<string, string> := map[];
    var i := 0;
    while i < |Sizes|
      invariant 0 <= i <= |Sizes| && |plan| == 7
      invariant Done(disk.files, disk.log, files0, log0, plan, 2 * i, writeOk)
      invariant results == Results(plan[..2 * i])
    {
      var failed, n := SaveSize(disk, base, clientExt, i, writeOk, files0, log0);
      if failed.Some? {
        DoneStop(disk.files, disk.log, files0, log0, plan, n, writeOk);
        r := Failure(failed.value);
        return;
      }
      var name := Sizes[i].0;
      PlanAt(base, clientExt, i);
      StepOnce(files0, plan, 2 * i);
      StepOnce(files0, plan, 2 * i + 1);
      results := results[name := VariantPath(base, name, Jpg)][name + "_webp" := VariantPath(base, name, Webp)];
      i := i + 1;
    }

    var originalPath := OriginalPath(base, clientExt);
    ghost var files3, log3 := disk.files, disk.log;
    var ok := StoreOriginal(disk, originalPath, writeOk);
    if !ok {
      DoneStop(disk.files, disk.log, files0, log0, plan, 6, writeOk);
      r := Failure(originalPath);
      return;
    }
    DoneStep(files3, log3, files0, log0, plan, 6, writeOk);
    StepOnce(files0, plan, 6);
    assert plan[..7] == plan;
    DoneStop(disk.files, disk.log, files0, log0, plan, 7, writeOk);
    results := results["original" := originalPath];
    r := Success(results);
  }
}
