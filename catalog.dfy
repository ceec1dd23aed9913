/** The format catalog that `get_info` builds from the engine's format records
    (app.py:66-85): keep the records that are not audio-only, turn each into an
    entry with size and resolution fallbacks, reverse, and keep the first 15. */
module Catalog {
  import opened Wrappers
  import opened Sizes

  /** One format record as the extraction engine reports it. `None` stands for a
      key the record lacks (what `f.get(key)` then returns). */
  datatype FormatRecord = FormatRecord(
    formatId: string,
    ext: string,
    vcodec: Option<string>,
    resolution: Option<string>,
    height: Option<int>,
    filesize: Option<int>,
    filesizeApprox: Option<int>,
    formatNote: Option<string>)

  /** The value of `f.get('resolution') or f.get('height')`. */
  datatype Resolution = Label(text: string) | Height(pixels: int) | NoResolution

  /** One element of the `formats` list sent to the client. */
  datatype Entry = Entry(formatId: string, ext: string, resolution: Resolution, filesize: string, note: string)

  /** The slice `formats_list[:15]`. */
  const Limit: nat := 15

  function Min(a: nat, b: nat): nat { if a < b then a else b }

  /** The filter of app.py:68. A record without a `vcodec` key passes it. */
  predicate Offered(f: FormatRecord) {
    f.vcodec != Some("none") && f.resolution != Some("audio only")
  }

  /** `f.get('filesize') or f.get('filesize_approx')` */
  function SizeOf(f: FormatRecord): Option<int> {
    if !Falsy(f.filesize) then f.filesize else f.filesizeApprox
  }

  /** `f.get('resolution') or f.get('height')`: an empty or missing resolution falls
      back to the height, whatever the height is. */
  function ResolutionOf(f: FormatRecord): Resolution {
    if f.resolution.Some? && f.resolution.value != "" then Label(f.resolution.value)
    else if f.height.Some? then Height(f.height.value)
    else NoResolution
  }

  /** The dictionary appended at app.py:70-76, or the `KeyError` `format_bytes` raises. */
  function EntryOf(f: FormatRecord, render: real -> string): Result<Entry, KeyError> {
    match SizeText(SizeOf(f), render)
    case Success(text) => Success(Entry(f.formatId, f.ext, ResolutionOf(f), text, f.formatNote.GetOr("")))
    case Failure(e) => Failure(e)
  }

  /** `formats_list` after the `for` loop, in engine order, or the first error raised. */
  function Collected(fs: seq<FormatRecord>, render: real -> string): Result<seq<Entry>, KeyError>
    decreases |fs|
  {
    if fs == [] then Success([])
    else
      match Collected(fs[..|fs| - 1], render)
      case Failure(e) => Failure(e)
      case Success(es) =>
        var f := fs[|fs| - 1];
        if !Offered(f) then Success(es)
        else
          match EntryOf(f, render)
          case Failure(e) => Failure(e)
          case Success(x) => Success(es + [x])
  }

  /** `list.reverse()` as a function of the list. */
  function Reversed<T>(s: seq<T>): (r: seq<T>)
    ensures |r| == |s|
  {
    if s == [] then [] else Reversed(s[1..]) + [s[0]]
  }

  lemma {:induction false} ReversedAt<T>(s: seq<T>, k: nat)
    requires k < |s|
    ensures |Reversed(s)| == |s| && Reversed(s)[k] == s[|s| - 1 - k]
    decreases |s|
  {
    if |s| > 1 {
      ReversedAt(s[1..], if k < |s| - 1 then k else 0);
    }
  }

  /** The `formats` of the response, or the error that ends `get_info`. */
  function CatalogOf(fs: seq<FormatRecord>, render: real -> string): Result<seq<Entry>, KeyError> {
    match Collected(fs, render)
    case Failure(e) => Failure(e)
    case Success(es) =>
      var r := Reversed(es);
      Success(r[..Min(|r|, Limit)])
  }

  /** A failure part-way through the records is the result for all of them:
      the loop stops at the first raise. */
  lemma {:induction false} CollectedFailurePersists(fs: seq<FormatRecord>, k: nat, render: real -> string)
    requires k <= |fs| && Collected(fs[..k], render).Failure?
    ensures Collected(fs, render) == Collected(fs[..k], render)
    decreases |fs|
  {
    if k < |fs| {
      assert fs[..|fs| - 1][..k] == fs[..k];
      CollectedFailurePersists(fs[..|fs| - 1], k, render);
    } else {
      assert fs[..k] == fs;
    }
  }

  /** The loop of app.py:66-78 and the slice of app.py:85. */
  method BuildCatalog(formats: seq<FormatRecord>, render: real -> string) returns (r: Result<seq<Entry>, KeyError>)
    ensures r == CatalogOf(formats, render)
  {
    var formatsList: seq<Entry> := [];
    for i := 0 to |formats|
      invariant Collected(formats[..i], render) == Success(formatsList)
    {
      var f := formats[i];
      assert formats[..i + 1][..i] == formats[..i];
      if Offered(f) {
        var size := SizeOf(f);
        var text := FormatBytes(size, render);
        if text.Failure? {
          CollectedFailurePersists(formats, i + 1, render);
          return Failure(text.error);
        }
        formatsList := formatsList + [Entry(f.formatId, f.ext, ResolutionOf(f), text.value, f.formatNote.GetOr(""))];
      }
    }
    assert formats[..|formats|] == formats;
    formatsList := Reversed(formatsList);
    r := Success(formatsList[..Min(|formatsList|, Limit)]);
  }

  /** The positions, in increasing order, of the records the filter keeps. */
  function OfferedPositions(fs: seq<FormatRecord>): seq<nat>
    decreases |fs|
  {
    if fs == [] then []
    else OfferedPositions(fs[..|fs| - 1]) + (if Offered(fs[|fs| - 1]) then [|fs| - 1] else [])
  }

  /** The positions are strictly increasing, all of them are offered records, and
      every offered record is among them. */
  lemma {:induction false} OfferedPositionsExact(fs: seq<FormatRecord>)
    ensures var ps := OfferedPositions(fs);
      (forall k :: 0 <= k < |ps| ==> ps[k] < |fs| && Offered(fs[ps[k]])) &&
      (forall k, l :: 0 <= k < l < |ps| ==> ps[k] < ps[l]) &&
      (forall j :: 0 <= j < |fs| && Offered(fs[j]) ==> j in ps)
    decreases |fs|
  {
    if fs != [] {
      var init := fs[..|fs| - 1];
      OfferedPositionsExact(init);
      var ps := OfferedPositions(fs);
      assert forall j :: 0 <= j < |init| ==> init[j] == fs[j];
      forall j | 0 <= j < |fs| && Offered(fs[j]) ensures j in ps {
        if j < |init| {
          assert j in OfferedPositions(init);
        } else {
          assert ps[|ps| - 1] == j;
        }
      }
    }
  }

  /** Entry k of the collected list comes from the k-th offered record. */
  lemma {:induction false} CollectedFromOffered(fs: seq<FormatRecord>, render: real -> string)
    requires Collected(fs, render).Success?
    ensures var es, ps := Collected(fs, render).value, OfferedPositions(fs);
      |es| == |ps| &&
      forall k :: 0 <= k < |es| ==> ps[k] < |fs| && EntryOf(fs[ps[k]], render) == Success(es[k])
    decreases |fs|
  {
    if fs != [] {
      var init := fs[..|fs| - 1];
      CollectedFromOffered(init, render);
      assert forall j :: 0 <= j < |init| ==> init[j] == fs[j];
    }
  }

  /** Every catalog entry is the entry of an offered record; the catalog is the
      reversed list of offered records cut to 15, so later records come first. */
  lemma CatalogProvenance(fs: seq<FormatRecord>, render: real -> string)
    requires CatalogOf(fs, render).Success?
    ensures var c, ps := CatalogOf(fs, render).value, OfferedPositions(fs);
      |c| == Min(|ps|, Limit) &&
      forall k :: 0 <= k < |c| ==>
        var j := ps[|ps| - 1 - k];
        j < |fs| && Offered(fs[j]) && EntryOf(fs[j], render) == Success(c[k])
  {
    var es := Collected(fs, render).value;
    CollectedFromOffered(fs, render);
    OfferedPositionsExact(fs);
    var ps := OfferedPositions(fs);
    forall k | 0 <= k < Min(|es|, Limit) ensures Reversed(es)[k] == es[|es| - 1 - k] {
      ReversedAt(es, k);
    }
    if es != [] {
      ReversedAt(es, 0);
    }
  }

  /** Engine order is reversed: an earlier catalog entry comes from a later record. */
  lemma CatalogOrder(fs: seq<FormatRecord>, render: real -> string, k: nat, l: nat)
    requires CatalogOf(fs, render).Success?
    requires k < l < |CatalogOf(fs, render).value|
    ensures var ps := OfferedPositions(fs); l < |ps| && ps[|ps| - 1 - k] > ps[|ps| - 1 - l]
  {
    CatalogProvenance(fs, render);
    OfferedPositionsExact(fs);
  }

  /** The loop fails exactly when some offered record's entry fails, and the error
      is that of the first such record. */
  lemma {:induction false} CollectedFailure(fs: seq<FormatRecord>, render: real -> string)
    ensures Collected(fs, render).Failure? <==>
      exists j :: 0 <= j < |fs| && Offered(fs[j]) && EntryOf(fs[j], render).Failure?
    ensures Collected(fs, render).Failure? ==>
      exists j :: 0 <= j < |fs| && Offered(fs[j]) && EntryOf(fs[j], render) == Failure(Collected(fs, render).error) &&
        forall i :: 0 <= i < j && Offered(fs[i]) ==> EntryOf(fs[i], render).Success?
    decreases |fs|
  {
    if fs != [] {
      var init := fs[..|fs| - 1];
      CollectedFailure(init, render);
      assert forall j :: 0 <= j < |init| ==> init[j] == fs[j];
      if Collected(init, render).Success? && Offered(fs[|fs| - 1]) && EntryOf(fs[|fs| - 1], render).Failure? {
        var j := |fs| - 1;
        assert forall i :: 0 <= i < j && Offered(fs[i]) ==> EntryOf(fs[i], render).Success?;
      }
    }
  }

  /** The size shown falls back from `filesize` to `filesize_approx`, and is
      "Unknown" exactly when neither is known; identifiers and extensions are copied. */
  lemma EntryFields(f: FormatRecord, render: real -> string)
    requires EntryOf(f, render).Success?
    ensures var e := EntryOf(f, render).value;
      e.formatId == f.formatId && e.ext == f.ext &&
      (!Falsy(f.filesize) ==> Success(e.filesize) == SizeText(f.filesize, render)) &&
      (Falsy(f.filesize) ==> Success(e.filesize) == SizeText(f.filesizeApprox, render)) &&
      (e.filesize == "Unknown" <==> Falsy(f.filesize) && Falsy(f.filesizeApprox))
  {
    SizeTextUnknownIffFalsy(SizeOf(f), render);
  }

  /** The resolution shown is the record's resolution when it is a non-empty
      string, otherwise its height. */
  lemma ResolutionFallback(f: FormatRecord)
    ensures f.resolution.Some? && f.resolution.value != "" ==> ResolutionOf(f) == Label(f.resolution.value)
    ensures (f.resolution.None? || f.resolution == Some("")) && f.height.Some? ==> ResolutionOf(f) == Height(f.height.value)
    ensures ResolutionOf(f) == NoResolution <==> (f.resolution.None? || f.resolution == Some("")) && f.height.None?
  {
  }

  lemma {:induction false} NoneOffered(fs: seq<FormatRecord>)
    requires forall j :: 0 <= j < |fs| ==> !Offered(fs[j])
    ensures OfferedPositions(fs) == []
    decreases |fs|
  {
    if fs != [] {
      var init := fs[..|fs| - 1];
      assert forall j :: 0 <= j < |init| ==> init[j] == fs[j];
      NoneOffered(init);
    }
  }

  /** No catalog from a list with no offered record; the catalog is never longer than 15. */
  lemma CatalogBounds(fs: seq<FormatRecord>, render: real -> string)
    ensures (forall j :: 0 <= j < |fs| ==> !Offered(fs[j])) ==> CatalogOf(fs, render) == Success([])
    ensures CatalogOf(fs, render).Success? ==> |CatalogOf(fs, render).value| <= Limit
  {
    CollectedFailure(fs, render);
    if CatalogOf(fs, render).Success? {
      CatalogProvenance(fs, render);
      if forall j :: 0 <= j < |fs| ==> !Offered(fs[j]) {
        NoneOffered(fs);
      }
    }
  }
}
