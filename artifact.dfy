/** Locating the downloaded file and naming it for the client (app.py:152-162, 176):
    the first directory entry that starts with the correlation token is the artifact,
    its extension is the text after its last dot, and the client receives it as
    `VidGrab_<timestamp>.<extension>`. */
module Artifact {
  import opened Wrappers
  import opened Text
  import opened DownloadOptions

  /** `final_file` and `found_ext` once the scan has found a file. */
  datatype Artifact = Artifact(path: string, ext: string)

  /** `os.path.join(TEMP_FOLDER, f)` for a bare file name `f`. */
  function JoinPath(dir: string, name: string): string {
    dir + "/" + name
  }

  function ArtifactFor(name: string): Artifact {
    Artifact(JoinPath(TempFolder, name), AfterLastDot(name))
  }

  /** The artifact the scan of `listing` settles on, if any. */
  function Lookup(listing: seq<string>, token: string): Option<Artifact>
    decreases |listing|
  {
    if listing == [] then None
    else if token <= listing[0] then Some(ArtifactFor(listing[0]))
    else Lookup(listing[1..], token)
  }

  /** The lookup finds nothing exactly when no name starts with the token, and
      otherwise picks the first name that does. */
  lemma {:induction false} LookupFirstMatch(listing: seq<string>, token: string)
    ensures Lookup(listing, token).None? <==> forall i :: 0 <= i < |listing| ==> !(token <= listing[i])
    ensures Lookup(listing, token).Some? ==>
      exists i :: 0 <= i < |listing| && token <= listing[i] &&
        (forall j :: 0 <= j < i ==> !(token <= listing[j])) &&
        Lookup(listing, token) == Some(ArtifactFor(listing[i]))
    decreases |listing|
  {
    if listing != [] && !(token <= listing[0]) {
      var rest := listing[1..];
      LookupFirstMatch(rest, token);
      assert forall i :: 0 <= i < |rest| ==> rest[i] == listing[i + 1];
      if Lookup(rest, token).Some? {
        var i :| 0 <= i < |rest| && token <= rest[i] &&
          (forall j :: 0 <= j < i ==> !(token <= rest[j])) &&
          Lookup(rest, token) == Some(ArtifactFor(rest[i]));
        assert token <= listing[i + 1];
        assert forall j :: 0 <= j < i + 1 ==> !(token <= listing[j]);
      }
    }
  }

  /** The `for f in os.listdir(...)` loop with its `break` (app.py:152-159). */
  method FindArtifact(listing: seq<string>, token: string) returns (finalFile: Option<Artifact>)
    ensures finalFile == Lookup(listing, token)
  {
    finalFile := None;
    var i := 0;
    while i < |listing|
      invariant 0 <= i <= |listing|
      invariant finalFile.None?
      invariant Lookup(listing[i..], token) == Lookup(listing, token)
    {
      var f := listing[i];
      if token <= f {
        finalFile := Some(Artifact(JoinPath(TempFolder, f), AfterLastDot(f)));
        break;
      }
      assert listing[i..][1..] == listing[i + 1..];
      i := i + 1;
    }
  }

  /** An artifact the engine wrote from the output template, with no other name
      before it starting with the token, is found with its real extension. */
  lemma TemplateArtifactFound(before: seq<string>, token: string, ext: string, after: seq<string>)
    requires '.' !in ext
    requires forall j :: 0 <= j < |before| ==> !(token <= before[j])
    ensures Lookup(before + [token + "." + ext] + after, token) ==
      Some(Artifact(JoinPath(TempFolder, token + "." + ext), ext))
  {
    var listing := before + [token + "." + ext] + after;
    assert token <= listing[|before|];
    assert forall j :: 0 <= j < |before| ==> listing[j] == before[j];
    LookupFirstMatch(listing, token);
    var i :| 0 <= i < |listing| && token <= listing[i] &&
      (forall j :: 0 <= j < i ==> !(token <= listing[j])) &&
      Lookup(listing, token) == Some(ArtifactFor(listing[i]));
    assert i == |before|;
    AfterLastDotAppend(token, ext);
  }

  /** `f"VidGrab_{int(time.time())}.{found_ext}"` */
  function DeliveredName(timestamp: nat, ext: string): string {
    "VidGrab_" + NatToString(timestamp) + "." + ext
  }

  /** The delivered name starts with "VidGrab_" and keeps the extension found on disk. */
  lemma DeliveredNameKeepsExtension(timestamp: nat, name: string)
    ensures var d := DeliveredName(timestamp, AfterLastDot(name));
      "VidGrab_" <= d && AfterLastDot(d) == AfterLastDot(name)
  {
    AfterLastDotAppend("VidGrab_" + NatToString(timestamp), AfterLastDot(name));
  }

  /** The leading run of digits of a string. */
  function LeadingDigits(x: string): (r: string)
    ensures r <= x
    decreases |x|
  {
    if x != [] && IsDigit(x[0]) then [x[0]] + LeadingDigits(x[1..]) else []
  }

  /** The digits before a dot are read back whole. */
  lemma {:induction false} LeadingDigitsBeforeDot(s: string, e: string)
    requires forall k :: 0 <= k < |s| ==> IsDigit(s[k])
    ensures LeadingDigits(s + "." + e) == s
    decreases |s|
  {
    if s != [] {
      assert (s + "." + e)[1..] == s[1..] + "." + e;
      LeadingDigitsBeforeDot(s[1..], e);
    }
  }

  /** Two deliveries share a name only when they share timestamp and extension. */
  lemma DeliveredNameInjective(t1: nat, e1: string, t2: nat, e2: string)
    requires DeliveredName(t1, e1) == DeliveredName(t2, e2)
    ensures t1 == t2 && e1 == e2
  {
    var s1, s2 := NatToString(t1), NatToString(t2);
    var p := |"VidGrab_"|;
    var d := DeliveredName(t1, e1);
    assert d[p..] == s1 + "." + e1;
    assert d[p..] == s2 + "." + e2;
    LeadingDigitsBeforeDot(s1, e1);
    LeadingDigitsBeforeDot(s2, e2);
    NatToStringRoundTrip(t1);
    NatToStringRoundTrip(t2);
    assert e1 == d[p + |s1| + 1..] == e2;
  }
}
