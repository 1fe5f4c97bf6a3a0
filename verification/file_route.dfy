/**
 * The file route: the upload extension check, the page selection check and
 * the batch creation of scan regions, which rescales the regions drawn on a
 * reduced preview back to the original image and stores them all or none.
 */
module FileRoute {
  import opened Wrappers
  import opened Geometry
  import opened Text

  /** What the framework answers when the handler raises. */
  const InternalError := HttpError(500, "Internal Server Error")

  // ---------------------------------------------------------------------------
  // validate_document and get_document_path

  predicate EndsWith(s: string, k: string)
  {
    |k| <= |s| && s[|s| - |k|..] == k
  }

  /** `s.split('.')[-1]`. */
  function LastPiece(s: string): string
  {
    var parts := Split(s, '.');
    parts[|parts| - 1]
  }

  /**
   * The last piece is the text after the last '.', or the whole name when
   * there is none: it starts at position j, right after a '.' or at 0.
   */
  lemma {:induction false} LastPieceStart(s: string) returns (j: nat)
    ensures j <= |s| && LastPiece(s) == s[j..] && (j == 0 || s[j - 1] == '.')
    ensures '.' !in LastPiece(s)
    decreases |s|
  {
    if '.' in s {
      var i := IndexOf(s, '.');
      var t := s[i + 1..];
      LastPieceOfTail(s);
      var jt := LastPieceStart(t);
      j := i + 1 + jt;
      assert s[j..] == t[jt..];
      assert s[j - 1] == '.' by {
        if jt > 0 {
          assert s[j - 1] == t[jt - 1];
        }
      }
    } else {
      j := 0;
      assert s[0..] == s;
    }
  }

  /** Past the first '.', the rest of the name has the same last piece. */
  lemma LastPieceOfTail(s: string)
    requires '.' in s
    ensures LastPiece(s) == LastPiece(s[IndexOf(s, '.') + 1..])
  {
    var i := IndexOf(s, '.');
    var ps := Split(s[i + 1..], '.');
    var whole := Split(s, '.');
    assert whole == [s[..i]] + ps;
    assert |whole| == |ps| + 1;
    assert whole[|ps|] == ps[|ps| - 1];
  }

  /** For an extension without '.', the last piece is ext exactly when the name is ext or ends in "." + ext. */
  lemma LastPieceIs(s: string, ext: string)
    requires '.' !in ext
    ensures LastPiece(s) == ext <==> s == ext || EndsWith(s, "." + ext)
  {
    var j := LastPieceStart(s);
    if LastPiece(s) == ext && j > 0 {
      assert s[|s| - |ext| - 1..] == "." + ext;
    }
    if EndsWith(s, "." + ext) {
      var d := |s| - |ext|;
      assert s[d - 1] == '.' && s[d..] == ext;
      LastDotIsUnique(s, j, d);
    }
    if s == ext {
      LastDotIsUnique(s, j, 0);
    }
  }

  /** Two positions that each follow a '.' (or start the text) with no '.' after them are the same. */
  lemma LastDotIsUnique(s: string, j: nat, d: nat)
    requires j <= |s| && d <= |s|
    requires j == 0 || s[j - 1] == '.'
    requires d == 0 || s[d - 1] == '.'
    requires '.' !in s[j..] && '.' !in s[d..]
    ensures j == d
  {
  }

  /**
   * get_document_path: the text after the last '.'. Its guard holds for every
   * name, so a missing name raises.
   */
  function GetDocumentPath(filename: Option<string>): (r: Result<string, HttpError>)
    ensures r.Err? <==> filename.None?
    ensures r.Err? ==> r.error == InternalError
    ensures r.Ok? ==> ('.' !in r.value
      && (r.value == filename.value || EndsWith(filename.value, "." + r.value)))
  {
    if filename.None? then Err(InternalError)
    else
      LastPieceIs(filename.value, LastPiece(filename.value));
      Ok(LastPiece(filename.value))
  }

  /** The name is "pdf" or "tif", or ends in ".pdf" or ".tif"; the test is case-sensitive. */
  predicate HasUploadExtension(name: string)
  {
    name == "pdf" || EndsWith(name, ".pdf") || name == "tif" || EndsWith(name, ".tif")
  }

  /** validate_document: whether the text after the last '.' is "pdf" or "tif". */
  function ValidateDocument(filename: Option<string>): (r: Result<bool, HttpError>)
    ensures r.Err? <==> filename.None?
    ensures r.Err? ==> r.error == InternalError
    ensures r.Ok? ==> (r.value <==> HasUploadExtension(filename.value))
  {
    if filename.None? then Err(InternalError)
    else
      var piece := LastPiece(filename.value);
      LastPieceIs(filename.value, "pdf");
      LastPieceIs(filename.value, "tif");
      assert "." + "pdf" == ".pdf" && "." + "tif" == ".tif";
      assert piece in ["pdf", "tif"] <==> piece == "pdf" || piece == "tif";
      Ok(piece in ["pdf", "tif"])
  }

  datatype Format = Pdf | Tif

  const InvalidFileType := HttpError(500, "file type is invalid")

  /**
   * The branch of upload_file: 400 for a rejected name, then the converter
   * chosen by the extension, with 500 for any other extension.
   */
  function UploadBranch(filename: Option<string>): (r: Result<Format, HttpError>)
    ensures r == Ok(Pdf) <==> filename.Some? && (filename.value == "pdf" || EndsWith(filename.value, ".pdf"))
    ensures r == Ok(Tif) <==> filename.Some? && (filename.value == "tif" || EndsWith(filename.value, ".tif"))
    ensures r == Err(HttpError(400, "Bad request")) <==> filename.Some? && !HasUploadExtension(filename.value)
  {
    match ValidateDocument(filename)
    case Err(e) => Err(e)
    case Ok(valid) =>
      if !valid then Err(HttpError(400, "Bad request"))
      else
        var pathExt := GetDocumentPath(filename).value;
        LastPieceIs(filename.value, "pdf");
        LastPieceIs(filename.value, "tif");
        if pathExt == "pdf" then Ok(Pdf)
        else if pathExt == "tif" then Ok(Tif)
        else Err(InvalidFileType)
  }

  /** A name that passed validation always has one of the two converters: the 500 branch is dead. */
  lemma UploadTypeIsNeverInvalid(filename: Option<string>)
    ensures UploadBranch(filename) != Err(InvalidFileType)
  {
    if ValidateDocument(filename) == Ok(true) {
      LastPieceIs(filename.value, "pdf");
      LastPieceIs(filename.value, "tif");
    }
  }

  // ---------------------------------------------------------------------------
  // select_pages_to_scan

  /** The page check loop: every requested page lies in [0, page count). */
  method CheckPages(pages: seq<int>, pageCount: nat) returns (ok: bool)
    ensures ok <==> forall k :: 0 <= k < |pages| ==> 0 <= pages[k] < pageCount
  {
    for k := 0 to |pages|
      invariant forall k' :: 0 <= k' < k ==> 0 <= pages[k'] < pageCount
    {
      if !(0 <= pages[k] < pageCount) {
        return false;
      }
    }
    return true;
  }

  /**
   * select_pages_to_scan for the file found (None when there is none) and the
   * page count of its document: the pages to store, or the error.
   */
  method SelectPagesToScan(found: bool, pageCount: nat, pages: seq<int>) returns (r: Result<seq<int>, HttpError>)
    ensures r.Err? <==> !found || exists k :: 0 <= k < |pages| && !(0 <= pages[k] < pageCount)
    ensures !found ==> r == Err(InternalError)
    ensures found && r.Err? ==> r.error == HttpError(400, "wrong number value is provided in pages_to_scan")
    ensures r.Ok? ==> r.value == pages
  {
    if !found {
      return Err(InternalError);
    }
    var ok := CheckPages(pages, pageCount);
    if !ok {
      return Err(HttpError(400, "wrong number value is provided in pages_to_scan"));
    }
    r := Ok(pages);
  }

  // ---------------------------------------------------------------------------
  // create_file_region_batch

  /** The preview sizes a region can be drawn on. */
  datatype Size = Original | Medium | Small

  /** The preview scale num / den: 1, 0.4 and 0.1. */
  function ScaleNum(size: Size): nat
  {
    match size
    case Original => 1
    case Medium => 2
    case Small => 1
  }

  function ScaleDen(size: Size): nat
  {
    match size
    case Original => 1
    case Medium => 5
    case Small => 10
  }

  /** The rescaled coordinate: v for the original, ceil(5 v / 2) for medium, 10 v for small. */
  function Rescale(v: int, size: Size): int
  {
    match size
    case Original => v
    case Medium => -((-5 * v) / 2)
    case Small => 10 * v
  }

  /** The rescaled coordinate is ceil(v / scale): the smallest integer at or past v / scale. */
  lemma RescaleIsCeiling(v: int, size: Size)
    ensures var r := Rescale(v, size);
      (r - 1) * ScaleNum(size) < v * ScaleDen(size) <= r * ScaleNum(size)
  {
    if size == Medium {
      var r := Rescale(v, size);
      assert r == CeilDiv(v * 5, 2);
    }
  }

  /** A region as the request carries it. */
  datatype RegionRequest = RegionRequest(labelText: string, xMin: int, xMax: int, yMin: int, yMax: int)

  /** The region to store: rescaled coordinates and an empty label. */
  function RescaleRegion(r: RegionRequest, size: Size): RegionRequest
  {
    RegionRequest("", Rescale(r.xMin, size), Rescale(r.xMax, size), Rescale(r.yMin, size), Rescale(r.yMax, size))
  }

  /** The bounds test: 0 <= x_min < x_max < width and 0 <= y_min < y_max < height. */
  predicate InImage(r: RegionRequest, width: int, height: int)
  {
    0 <= r.xMin < r.xMax < width && 0 <= r.yMin < r.yMax < height
  }

  /** The rescaled regions that pass the bounds test, in request order. */
  function Accepted(regions: seq<RegionRequest>, size: Size, width: int, height: int): (r: seq<RegionRequest>)
    ensures |r| <= |regions|
    ensures forall k :: 0 <= k < |r| ==> r[k].labelText == "" && InImage(r[k], width, height)
  {
    if regions == [] then []
    else
      var last := |regions| - 1;
      var n := RescaleRegion(regions[last], size);
      Accepted(regions[..last], size, width, height) + (if InImage(n, width, height) then [n] else [])
  }
  /** The accepted regions of a concatenation are those of each part, in order. */
  lemma {:induction false} AcceptedConcat(a: seq<RegionRequest>, b: seq<RegionRequest>, size: Size, width: int, height: int)
    decreases |b|
    ensures Accepted(a + b, size, width, height) == Accepted(a, size, width, height) + Accepted(b, size, width, height)
  {
    if b == [] {
      assert a + b == a;
    } else {
      var last := |b| - 1;
      assert (a + b)[..|a + b| - 1] == a + b[..last];
      assert (a + b)[|a + b| - 1] == b[last];
      AcceptedConcat(a, b[..last], size, width, height);
    }
  }

  /** A single region is kept, rescaled, exactly when its rescaled form passes the bounds test. */
  lemma AcceptedOne(x: RegionRequest, size: Size, width: int, height: int)
    ensures Accepted([x], size, width, height) == if InImage(RescaleRegion(x, size), width, height) then [RescaleRegion(x, size)] else []
  {
    assert [x][..0] == [];
  }


  /** The request regions whose rescaled form fails the bounds test, in request order. */
  function Rejected(regions: seq<RegionRequest>, size: Size, width: int, height: int): (r: seq<RegionRequest>)
    ensures |r| + |Accepted(regions, size, width, height)| == |regions|
    ensures forall k :: 0 <= k < |r| ==> !InImage(RescaleRegion(r[k], size), width, height)
  {
    if regions == [] then []
    else
      var last := |regions| - 1;
      var n := RescaleRegion(regions[last], size);
      Rejected(regions[..last], size, width, height) + (if InImage(n, width, height) then [] else [regions[last]])
  }
  /** The rejected regions of a concatenation are those of each part, in order. */
  lemma {:induction false} RejectedConcat(a: seq<RegionRequest>, b: seq<RegionRequest>, size: Size, width: int, height: int)
    decreases |b|
    ensures Rejected(a + b, size, width, height) == Rejected(a, size, width, height) + Rejected(b, size, width, height)
  {
    if b == [] {
      assert a + b == a;
    } else {
      var last := |b| - 1;
      var ab := a + b;
      assert ab[..|ab| - 1] == a + b[..last];
      assert ab[|ab| - 1] == b[last];
      RejectedLast(ab, size, width, height);
      RejectedLast(b, size, width, height);
      RejectedConcat(a, b[..last], size, width, height);
    }
  }

  lemma RejectedLast(s: seq<RegionRequest>, size: Size, width: int, height: int)
    requires s != []
    ensures Rejected(s, size, width, height) == Rejected(s[..|s| - 1], size, width, height)
      + (if InImage(RescaleRegion(s[|s| - 1], size), width, height) then [] else [s[|s| - 1]])
  {
  }



  /** A single region is rejected exactly when its rescaled form fails the bounds test. */
  lemma RejectedOne(x: RegionRequest, size: Size, width: int, height: int)
    ensures Rejected([x], size, width, height) == if InImage(RescaleRegion(x, size), width, height) then [] else [x]
  {
    assert [x][..0] == [];
  }


  /** Nothing is rejected exactly when every rescaled region is in the image. */
  lemma {:induction false} NothingRejected(regions: seq<RegionRequest>, size: Size, width: int, height: int)
    ensures Rejected(regions, size, width, height) == [] <==>
      forall k :: 0 <= k < |regions| ==> InImage(RescaleRegion(regions[k], size), width, height)
  {
    if regions != [] {
      var last := |regions| - 1;
      var init := regions[..last];
      var n := RescaleRegion(regions[last], size);
      assert Rejected(regions, size, width, height)
        == Rejected(init, size, width, height) + (if InImage(n, width, height) then [] else [regions[last]]);
      NothingRejected(init, size, width, height);
      if Rejected(regions, size, width, height) == [] {
        forall k | 0 <= k < |regions|
          ensures InImage(RescaleRegion(regions[k], size), width, height)
        {
          if k < last {
            assert init[k] == regions[k];
          }
        }
      } else if InImage(n, width, height) {
        var k :| 0 <= k < last && !InImage(RescaleRegion(init[k], size), width, height);
        assert init[k] == regions[k];
      }
    }
  }

  /** When nothing is rejected, the accepted regions are all the rescaled regions, in order. */
  lemma {:induction false} AllAccepted(regions: seq<RegionRequest>, size: Size, width: int, height: int)
    requires Rejected(regions, size, width, height) == []
    ensures Accepted(regions, size, width, height) == seq(|regions|, k requires 0 <= k < |regions| => RescaleRegion(regions[k], size))
  {
    if regions != [] {
      var last := |regions| - 1;
      var init := regions[..last];
      var n := RescaleRegion(regions[last], size);
      assert InImage(n, width, height);
      AllAccepted(init, size, width, height);
      assert Accepted(regions, size, width, height) == Accepted(init, size, width, height) + [n];
      assert forall k :: 0 <= k < last ==> init[k] == regions[k];
    }
  }

  function Labels(rs: seq<RegionRequest>): (ls: seq<string>)
    ensures |ls| == |rs| && forall k :: 0 <= k < |rs| ==> ls[k] == rs[k].labelText
  {
    seq(|rs|, k requires 0 <= k < |rs| => rs[k].labelText)
  }

  /** The 400 detail naming the rejected regions. */
  function OutOfBoundsMessage(rejected: seq<RegionRequest>): string
  {
    "One or more Regions out of bounds: " + Join(Labels(rejected), ", ") + "."
  }

  /** The classification loop: the rescaled in-image regions and the original out-of-image ones. */
  method ClassifyRegions(regions: seq<RegionRequest>, size: Size, width: int, height: int)
    returns (correct: seq<RegionRequest>, outofbounds: seq<RegionRequest>)
    ensures correct == Accepted(regions, size, width, height)
    ensures outofbounds == Rejected(regions, size, width, height)
  {
    correct := [];
    outofbounds := [];
    for k := 0 to |regions|
      invariant correct == Accepted(regions[..k], size, width, height)
      invariant outofbounds == Rejected(regions[..k], size, width, height)
    {
      var region := regions[k];
      var newRegion := RegionRequest("", Rescale(region.xMin, size), Rescale(region.xMax, size),
        Rescale(region.yMin, size), Rescale(region.yMax, size));
      assert regions[..k + 1][..k] == regions[..k];
      assert newRegion == RescaleRegion(region, size);
      if newRegion.xMax < width && newRegion.xMin >= 0 && newRegion.yMax < height && newRegion.yMin >= 0
        && newRegion.xMin < newRegion.xMax && newRegion.yMin < newRegion.yMax
      {
        correct := correct + [newRegion];
      } else {
        outofbounds := outofbounds + [region];
      }
    }
    assert regions[..|regions|] == regions;
  }

  /** A stored region row. */
  datatype FileRegion = FileRegion(labelText: string, xMin: int, xMax: int, yMin: int, yMax: int, scannedFileId: nat)

  function ToFileRegion(r: RegionRequest, scannedFileId: nat): FileRegion
  {
    FileRegion(r.labelText, r.xMin, r.xMax, r.yMin, r.yMax, scannedFileId)
  }

  function ToFileRegions(rs: seq<RegionRequest>, scannedFileId: nat): (out: seq<FileRegion>)
    ensures |out| == |rs| && forall k :: 0 <= k < |rs| ==> out[k] == ToFileRegion(rs[k], scannedFileId)
  {
    seq(|rs|, k requires 0 <= k < |rs| => ToFileRegion(rs[k], scannedFileId))
  }

  /** The file, scanned-file and file-region rows the route touches. */
  class RegionStore {
    var fileIds: set<nat>
    var scannedFileIds: set<nat>
    var regions: seq<FileRegion>

    constructor(fileIds: set<nat>, scannedFileIds: set<nat>)
      ensures this.fileIds == fileIds && this.scannedFileIds == scannedFileIds && regions == []
    {
      this.fileIds := fileIds;
      this.scannedFileIds := scannedFileIds;
      regions := [];
    }

    /** save_region: false when the scanned file or the file is unknown, else the row is added. */
    method SaveRegion(fileId: nat, scannedFileId: nat, r: RegionRequest) returns (ok: bool)
      modifies this
      ensures ok <==> scannedFileId in scannedFileIds && fileId in fileIds
      ensures fileIds == old(fileIds) && scannedFileIds == old(scannedFileIds)
      ensures regions == old(regions) + (if ok then [ToFileRegion(r, scannedFileId)] else [])
    {
      ok := scannedFileId in scannedFileIds && fileId in fileIds;
      if ok {
        regions := regions + [ToFileRegion(r, scannedFileId)];
      }
    }
  }

  /**
   * create_file_region_batch for the scanned file found (its image size, None
   * when there is none): at most 10 regions; any rejected region fails the
   * whole batch with 400 and nothing stored; otherwise every accepted region
   * is stored in order, and a failed save answers 404.
   */
  method CreateFileRegionBatch(
    regionList: seq<RegionRequest>, fileId: nat, scannedFileId: nat, image: Option<(nat, nat)>, size: Size,
    store: RegionStore)
    returns (r: Result<bool, HttpError>)
    modifies store
    ensures store.fileIds == old(store.fileIds) && store.scannedFileIds == old(store.scannedFileIds)
    ensures image.None? ==> r == Err(InternalError) && store.regions == old(store.regions)
    ensures image.Some? && |regionList| > 10 ==>
      r == Err(HttpError(400, "Maximum 10 regions are allowed.")) && store.regions == old(store.regions)
    ensures image.Some? && |regionList| <= 10 ==>
      var rejected := Rejected(regionList, size, image.value.0, image.value.1);
      var accepted := Accepted(regionList, size, image.value.0, image.value.1);
      var saves := scannedFileId in store.scannedFileIds && fileId in store.fileIds;
      (rejected != [] ==> r == Err(HttpError(400, OutOfBoundsMessage(rejected))) && store.regions == old(store.regions))
      && (rejected == [] && (saves || accepted == []) ==>
        r == Ok(true) && store.regions == old(store.regions) + ToFileRegions(accepted, scannedFileId))
      && (rejected == [] && !saves && accepted != [] ==>
        r == Err(HttpError(404, "Not Found")) && store.regions == old(store.regions))
  {
    if image.None? {
      return Err(InternalError);
    }
    var (imageWidth, imageHeight) := image.value;
    if |regionList| > 10 {
      return Err(HttpError(400, "Maximum 10 regions are allowed."));
    }
    var correct, outofbounds := ClassifyRegions(regionList, size, imageWidth, imageHeight);
    if |outofbounds| != 0 {
      return Err(HttpError(400, OutOfBoundsMessage(outofbounds)));
    }
    for k := 0 to |correct|
      invariant store.fileIds == old(store.fileIds) && store.scannedFileIds == old(store.scannedFileIds)
      invariant store.regions == old(store.regions) + ToFileRegions(correct[..k], scannedFileId)
      invariant k > 0 ==> scannedFileId in store.scannedFileIds && fileId in store.fileIds
    {
      var confirmation := store.SaveRegion(fileId, scannedFileId, correct[k]);
      if !confirmation {
        return Err(HttpError(404, "Not Found"));
      }
      assert ToFileRegions(correct[..k + 1], scannedFileId)
        == ToFileRegions(correct[..k], scannedFileId) + [ToFileRegion(correct[k], scannedFileId)];
    }
    assert correct[..|correct|] == correct;
    r := Ok(true);
  }
}
