/** The download options `download_video` hands to the engine (app.py:114-146):
    the output template keyed by the correlation token, then a case split on
    `convert_to` and `format_id`. */
module DownloadOptions {
  import opened Wrappers

  /** `TEMP_FOLDER` */
  const TempFolder: string := "temp_downloads"

  /** One entry of the `postprocessors` list. */
  datatype PostProcessor = PostProcessor(key: string, preferredCodec: string)

  /** The part of `ydl_opts` that depends on the request. `mergeOutputFormat` is
      `None` both when the key is absent and when it is set to `None`. */
  datatype Options = Options(
    outtmpl: string,
    format: string,
    mergeOutputFormat: Option<string>,
    postprocessors: seq<PostProcessor>)

  const ExtractMp3: PostProcessor := PostProcessor("FFmpegExtractAudio", "mp3")

  /** The best audio stream, or the best single file when there is none. */
  const BestAudio: string := "bestaudio/best"

  /** What a chosen video format is combined with. */
  const WithBestAudio: string := "+" + BestAudio

  /** `f'{TEMP_FOLDER}/{unique_name}.%(ext)s'` */
  function OutputTemplate(token: string): string {
    TempFolder + "/" + token + ".%(ext)s"
  }

  /** `format_id and format_id != 'best'` */
  predicate ChosenFormat(formatId: Option<string>) {
    formatId.Some? && formatId.value != "" && formatId.value != "best"
  }

  /** `ydl_opts` after the assignments of app.py:117-146. */
  function SelectOptions(token: string, convertTo: Option<string>, formatId: Option<string>): Options {
    var outtmpl := OutputTemplate(token);
    if convertTo == Some("mp3") then
      Options(outtmpl, BestAudio, None, [ExtractMp3])
    else if ChosenFormat(formatId) then
      Options(outtmpl, formatId.value + WithBestAudio, convertTo, [])
    else
      Options(outtmpl, "bestvideo" + WithBestAudio, convertTo, [])
  }

  /** An mp3 conversion extracts audio with exactly one mp3 post-processor, merges
      nothing and ignores `format_id`. */
  lemma Mp3Conversion(token: string, formatId: Option<string>, other: Option<string>)
    ensures var o := SelectOptions(token, Some("mp3"), formatId);
      o.format == "bestaudio/best" && o.postprocessors == [ExtractMp3] && o.mergeOutputFormat.None? &&
      o == SelectOptions(token, Some("mp3"), other)
  {
  }

  /** A post-processor is requested exactly for mp3; otherwise the merge container
      is whatever `convert_to` names. */
  lemma TranscodeIffMp3(token: string, convertTo: Option<string>, formatId: Option<string>)
    ensures var o := SelectOptions(token, convertTo, formatId);
      (|o.postprocessors| > 0 <==> convertTo == Some("mp3")) &&
      (convertTo != Some("mp3") ==> o.mergeOutputFormat == convertTo)
  {
  }

  /** A chosen format id is combined with the best audio and can be read back from
      the selection; without one, the best video is combined with the best audio. */
  lemma VideoSelection(token: string, convertTo: Option<string>, formatId: Option<string>)
    requires convertTo != Some("mp3")
    ensures var f := SelectOptions(token, convertTo, formatId).format;
      |f| >= |WithBestAudio| && f[|f| - |WithBestAudio|..] == WithBestAudio &&
      (ChosenFormat(formatId) ==> f[..|f| - |WithBestAudio|] == formatId.value) &&
      (!ChosenFormat(formatId) ==> f[..|f| - |WithBestAudio|] == "bestvideo")
  {
    var f := SelectOptions(token, convertTo, formatId).format;
    if ChosenFormat(formatId) {
      assert f == formatId.value + WithBestAudio;
    } else {
      assert f == "bestvideo" + WithBestAudio;
    }
  }

  /** Every selection is some text followed by "bestaudio/best". */
  lemma SelectionShape(token: string, convertTo: Option<string>, formatId: Option<string>) returns (head: string)
    ensures SelectOptions(token, convertTo, formatId).format == head + BestAudio
  {
    if convertTo == Some("mp3") {
      head := "";
    } else if ChosenFormat(formatId) {
      head := formatId.value + "+";
      assert formatId.value + WithBestAudio == head + BestAudio;
    } else {
      head := "bestvideo+";
      assert "bestvideo" + WithBestAudio == head + BestAudio;
    }
  }

  /** Every selection ends by asking for the best audio, with `best` as the fallback. */
  lemma SelectionAlwaysFallsBack(token: string, convertTo: Option<string>, formatId: Option<string>)
    ensures var f := SelectOptions(token, convertTo, formatId).format;
      |f| >= |BestAudio| && f[|f| - |BestAudio|..] == BestAudio
  {
    var head := SelectionShape(token, convertTo, formatId);
    var f := head + BestAudio;
    assert f[|head|..] == BestAudio;
  }
}
