/** The update decision of launcher.c as its design evidently intends it:
    the version token is found only when both delimiters are present and the
    last '.' follows the last '-', both copies leave a NUL-terminated string
    in their buffer, and main announces an update only for a positive
    decision. The decision then depends on the inputs alone, never on the
    uninitialised contents of the stack buffers. */
module Corrected {
  import opened Wrappers
  import opened CStrings
  import L = Launcher

  /** Where the final path segment of a URL begins: just after its last
      '/', or at 0 when it has none. */
  function SegmentStart(url: string): (r: nat)
    ensures r <= |url| && '/' !in url[r..]
    ensures r == 0 || url[r - 1] == '/'
  {
    match LastIndexOf(url, '/')
    case None => 0
    case Some(slash) => slash + 1
  }

  /** Every suffix free of '/' lies within the final path segment. */
  lemma SegmentStartWithin(url: string, i: nat)
    requires i <= |url| && '/' !in url[i..]
    ensures SegmentStart(url) <= i
  {
  }

  /** The version token of a redirect target: the characters strictly
      between the last '-' and the last '.' of its final path segment.
      None when the segment lacks a delimiter, when its last '.' comes
      before its last '-', or when the token does not fit a buffer of cap
      cells with its terminator. */
  function ExtractVersion(url: string, cap: nat): (r: Option<string>)
    ensures '-' !in url[SegmentStart(url)..] || '.' !in url[SegmentStart(url)..] ==> r.None?
    ensures r.Some? ==> |r.value| < cap && '-' !in r.value && '/' !in r.value
    ensures r.Some? && IsCString(url) ==> IsCString(r.value)
  {
    var segment := url[SegmentStart(url)..];
    assert IsCString(url) ==> IsCString(segment);
    SegmentToken(segment, cap)
  }

  /** The token of one path segment, as ExtractVersion finds it. */
  function SegmentToken(segment: string, cap: nat): (r: Option<string>)
    ensures '-' !in segment || '.' !in segment ==> r.None?
    ensures r.Some? ==> |r.value| < cap && '-' !in r.value
    ensures r.Some? ==> forall c :: c in r.value ==> c in segment
  {
    match (LastIndexOf(segment, '-'), LastIndexOf(segment, '.'))
    case (Some(dash), Some(dot)) =>
      if dot < dash then None
      else
        var token := segment[dash + 1..dot];
        assert token <= segment[dash + 1..];
        if |token| < cap then Some(token) else None
    case _ => None
  }

  /** The token of a segment with its last '-' at dash and its last '.'
      at dot. */
  lemma SegmentTokenAt(segment: string, cap: nat, dash: nat, dot: nat)
    requires dash < |segment| && segment[dash] == '-' && '-' !in segment[dash + 1..]
    requires dot < |segment| && segment[dot] == '.' && '.' !in segment[dot + 1..]
    ensures SegmentToken(segment, cap)
            == if dot < dash || cap <= dot - dash - 1 then None else Some(segment[dash + 1..dot])
  {
    LastIndexOfAt(segment, '-', dash);
    LastIndexOfAt(segment, '.', dot);
  }

  /** Extraction at known delimiters: with the last '-' at dash, the last
      '.' at dot and no '/' after either, the token is the text between
      them when they are in order and it fits, and there is none
      otherwise. */
  lemma ExtractVersionAt(url: string, cap: nat, dash: nat, dot: nat)
    requires dash < |url| && url[dash] == '-' && '-' !in url[dash + 1..]
    requires dot < |url| && url[dot] == '.' && '.' !in url[dot + 1..]
    requires '/' !in url[dash..] && '/' !in url[dot..]
    ensures ExtractVersion(url, cap)
            == if dot < dash || cap <= dot - dash - 1 then None else Some(url[dash + 1..dot])
  {
    var start := SegmentStart(url);
    SegmentStartWithin(url, dash);
    SegmentStartWithin(url, dot);
    var segment := url[start..];
    var d, e := dash - start, dot - start;
    assert segment[d] == '-' && segment[d + 1..] == url[dash + 1..];
    assert segment[e] == '.' && segment[e + 1..] == url[dot + 1..];
    SegmentTokenAt(segment, cap, d, e);
    if d <= e {
      assert segment[d + 1..e] == url[dash + 1..dot];
    }
  }

  /** Extraction finds exactly the token of p-t.q when t and q hold no '-'
      and no '/', and q no '.': t itself when it fits, no token otherwise. */
  lemma ExtractVersionOf(p: string, t: string, q: string, cap: nat)
    requires '-' !in t && '-' !in q && '.' !in q
    requires '/' !in t && '/' !in q
    ensures ExtractVersion(p + "-" + t + "." + q, cap) == if |t| < cap then Some(t) else None
  {
    var url := p + "-" + t + "." + q;
    var dash, dot := |p|, |p| + 1 + |t|;
    assert url[dash..] == "-" + t + "." + q;
    assert url[dot..] == "." + q;
    assert url[dash + 1..] == t + "." + q;
    assert url[dot + 1..] == q;
    assert url[dash + 1..dot] == t;
    ExtractVersionAt(url, cap, dash, dot);
  }

  /** A final path segment whose last '.' comes before its last '-' has no
      token. */
  lemma ExtractVersionReversed(url: string, cap: nat, dash: nat, dot: nat)
    requires dot < dash < |url|
    requires url[dash] == '-' && '-' !in url[dash + 1..]
    requires url[dot] == '.' && '.' !in url[dot + 1..]
    requires '/' !in url[dot..]
    ensures ExtractVersion(url, cap) == None
  {
    assert url[dash..] == url[dot..][dash - dot..];
    ExtractVersionAt(url, cap, dash, dot);
  }

  /** Delimiters outside the final path segment are ignored: here the '-'
      and the first '.' are in the host name. */
  lemma HostDelimitersExample()
    ensures ExtractVersion("a-b.io/app.linux", L.MAX_VERSION_LENGTH) == None
  {
    var url := "a-b.io/app.linux";
    LastIndexOfAt(url, '/', 6);
    assert url[7..] == "app.linux";
    assert '-' !in url[7..];
  }

  /** The corrected copy of the token: strncpy of exactly its characters
      followed by a NUL, so that the first cap cells read back as the token
      and no later cell is touched. */
  method StoreToken(versionString: array<char>, cap: nat, token: string)
    requires IsCString(token) && |token| < cap <= versionString.Length
    modifies versionString
    ensures ReadCString(versionString[..cap]) == Some(token)
    ensures versionString[cap..] == old(versionString[cap..])
  {
    StrncpyArray(versionString, token, |token|);
    versionString[|token|] := NUL;
    ghost var stored := versionString[..cap];
    assert stored == StrncpyChars(token, |token|) + [NUL] + stored[|token| + 1..];
    ReadStrncpyTerminated(token, |token|, stored[|token| + 1..]);
  }

  /** get_remote_version with the missing checks: -1 when the request
      fails, -2 when there is no location header, -3 when the target has no
      token; otherwise 0, with the token stored NUL-terminated in the first
      cap cells and every later cell untouched. */
  method GetRemoteVersion(response: L.Response, versionString: array<char>, versionStringLength: nat)
    returns (rc: int)
    requires versionStringLength <= versionString.Length
    requires response.LocationHeader? ==> IsCString(response.location)
    modifies versionString
    ensures response.PerformFailed? ==> rc == -1 && versionString[..] == old(versionString[..])
    ensures response.NoLocationHeader? ==> rc == -2 && versionString[..] == old(versionString[..])
    ensures response.LocationHeader? ==>
              match ExtractVersion(response.location, versionStringLength)
              case None => rc == -3 && versionString[..] == old(versionString[..])
              case Some(token) =>
                && rc == 0
                && ReadCString(versionString[..versionStringLength]) == Some(token)
                && versionString[versionStringLength..] == old(versionString[versionStringLength..])
  {
    match response
    case PerformFailed => return -1;
    case NoLocationHeader => return -2;
    case LocationHeader(latestUrl) =>
      var extracted := ExtractVersion(latestUrl, versionStringLength);
      match extracted
      case None => return -3;
      case Some(token) =>
        StoreToken(versionString, versionStringLength, token);
        return 0;
  }

  /** get_local_version refusing a version that does not fit: -3 when the
      version needs the whole buffer or more, so that strncpy with the full
      capacity always leaves a NUL after it. */
  method GetLocalVersion(buildInfo: L.BuildInfo, versionString: array<char>, versionStringLength: nat)
    returns (rc: int)
    requires versionStringLength <= versionString.Length
    requires buildInfo.VersionField? ==> IsCString(buildInfo.version)
    modifies versionString
    ensures buildInfo.Unparsable? ==> rc == -1 && versionString[..] == old(versionString[..])
    ensures buildInfo.NoVersionField? ==> rc == -2 && versionString[..] == old(versionString[..])
    ensures buildInfo.VersionField? && versionStringLength <= |buildInfo.version| ==>
              rc == -3 && versionString[..] == old(versionString[..])
    ensures buildInfo.VersionField? && |buildInfo.version| < versionStringLength ==>
              && rc == 0
              && ReadCString(versionString[..versionStringLength]) == Some(buildInfo.version)
              && versionString[versionStringLength..] == old(versionString[versionStringLength..])
  {
    match buildInfo
    case Unparsable => return -1;
    case NoVersionField => return -2;
    case VersionField(vs) =>
      if versionStringLength <= |vs| {
        return -3;
      }
      ghost var before := versionString[..versionStringLength];
      StrncpyArray(versionString, vs, versionStringLength);
      assert versionString[..versionStringLength] == Strncpy(before, vs, versionStringLength);
      StrncpyTerminated(before, vs, versionStringLength);
      return 0;
  }

  /** The decision need_update is meant to make: -1 when either version
      cannot be obtained or does not fit its buffer, otherwise 1 exactly
      when strverscmp ranks the remote token above the local version, and
      0 otherwise. */
  function Decision(buildInfo: L.BuildInfo, response: L.Response,
                    strverscmp: (string, string) -> int): (r: int)
    ensures r == -1 <==> (|| !buildInfo.VersionField? || L.MAX_VERSION_LENGTH <= |buildInfo.version|
                          || !response.LocationHeader?
                          || ExtractVersion(response.location, L.MAX_VERSION_LENGTH).None?)
    ensures -1 <= r <= 1
    ensures r != -1 ==>
              (r == 1 <==> strverscmp(ExtractVersion(response.location, L.MAX_VERSION_LENGTH).value,
                                      buildInfo.version) > 0)
  {
    if !buildInfo.VersionField? || L.MAX_VERSION_LENGTH <= |buildInfo.version| || !response.LocationHeader? then -1
    else
      match ExtractVersion(response.location, L.MAX_VERSION_LENGTH)
      case None => -1
      case Some(remote) =>
        if strverscmp(remote, buildInfo.version) > 0 then 1 else 0
  }

  /** The well-formedness of the corrected need_update's inputs: the opaque
      outcomes carry C strings and the stack buffers have their declared
      size. */
  predicate CorrectedInputs(buildInfo: L.BuildInfo, response: L.Response,
                            localStack: seq<char>, remoteStack: seq<char>)
  {
    && |localStack| == L.MAX_VERSION_LENGTH && |remoteStack| == L.MAX_VERSION_LENGTH
    && (buildInfo.VersionField? ==> IsCString(buildInfo.version))
    && (response.LocationHeader? ==> IsCString(response.location))
  }

  /** need_update over the corrected lookups: whatever its uninitialised
      stack buffers hold, it returns Decision of the inputs. */
  method NeedUpdate(buildInfo: L.BuildInfo, response: L.Response,
                    localStack: seq<char>, remoteStack: seq<char>,
                    strverscmp: (string, string) -> int)
    returns (r: int)
    requires CorrectedInputs(buildInfo, response, localStack, remoteStack)
    ensures r == Decision(buildInfo, response, strverscmp)
  {
    var localVersion := new char[L.MAX_VERSION_LENGTH](i requires 0 <= i < L.MAX_VERSION_LENGTH => localStack[i]);
    var remoteVersion := new char[L.MAX_VERSION_LENGTH](i requires 0 <= i < L.MAX_VERSION_LENGTH => remoteStack[i]);

    var rc := GetLocalVersion(buildInfo, localVersion, localVersion.Length);
    if rc < 0 {
      return -1;
    }
    assert buildInfo.VersionField? && |buildInfo.version| < L.MAX_VERSION_LENGTH;
    rc := GetRemoteVersion(response, remoteVersion, remoteVersion.Length);
    if rc < 0 {
      return -1;
    }
    assert response.LocationHeader? && ExtractVersion(response.location, L.MAX_VERSION_LENGTH).Some?;
    assert remoteVersion[..] == remoteVersion[..L.MAX_VERSION_LENGTH];
    assert localVersion[..] == localVersion[..L.MAX_VERSION_LENGTH];
    var remote := ReadCString(remoteVersion[..]);
    var local := ReadCString(localVersion[..]);
    return if strverscmp(remote.value, local.value) > 0 then 1 else 0;
  }

  /** main announcing an update only for a positive decision. */
  function MainResult(curlInitOk: bool, needUpdate: int): (r: L.Exit)
    ensures r.status == (if curlInitOk then 0 else -1)
    ensures r.printsNeedUpdate <==> curlInitOk && needUpdate > 0
  {
    if !curlInitOk then L.Exit(-1, false) else L.Exit(0, needUpdate > 0)
  }

  /** main over the corrected need_update. */
  method LauncherMain(curlInitOk: bool, buildInfo: L.BuildInfo, response: L.Response,
                      localStack: seq<char>, remoteStack: seq<char>,
                      strverscmp: (string, string) -> int)
    returns (r: L.Exit)
    requires CorrectedInputs(buildInfo, response, localStack, remoteStack)
    ensures r == MainResult(curlInitOk, Decision(buildInfo, response, strverscmp))
  {
    if !curlInitOk {
      return L.Exit(-1, false);
    }
    var needUpdate := NeedUpdate(buildInfo, response, localStack, remoteStack, strverscmp);
    return L.Exit(0, needUpdate > 0);
  }

  /** A failed version lookup is no longer announced as an update. */
  lemma MainSilentOnFailure(buildInfo: L.BuildInfo, response: L.Response,
                            strverscmp: (string, string) -> int)
    requires !buildInfo.VersionField? || !response.LocationHeader?
    ensures !MainResult(true, Decision(buildInfo, response, strverscmp)).printsNeedUpdate
  {
  }

  /** For a redirect target of the form p-t.q and versions that fit the
      buffers, the decision compares exactly the token t with the local
      version, and an equal version (strverscmp is zero on identical
      strings) needs no update. */
  lemma DecisionOnToken(vs: string, p: string, t: string, q: string,
                        strverscmp: (string, string) -> int)
    requires |vs| < L.MAX_VERSION_LENGTH && |t| < L.MAX_VERSION_LENGTH
    requires '-' !in t && '-' !in q && '.' !in q && '/' !in t && '/' !in q
    ensures Decision(L.VersionField(vs), L.LocationHeader(p + "-" + t + "." + q), strverscmp)
            == if strverscmp(t, vs) > 0 then 1 else 0
    ensures t == vs && strverscmp(t, t) == 0 ==>
              Decision(L.VersionField(vs), L.LocationHeader(p + "-" + t + "." + q), strverscmp) == 0
  {
    ExtractVersionOf(p, t, q, L.MAX_VERSION_LENGTH);
  }

  /** The token of a package URL. */
  lemma DebLocationExample()
    ensures ExtractVersion("https://d.io/app-1.2.3.deb", L.MAX_VERSION_LENGTH) == Some("1.2.3")
  {
    assert "https://d.io/app-1.2.3.deb" == "https://d.io/app" + "-" + "1.2.3" + "." + "deb";
    ExtractVersionOf("https://d.io/app", "1.2.3", "deb", L.MAX_VERSION_LENGTH);
  }

  /** A redirect target with no '-' has no token. */
  lemma MissingDashExample()
    ensures ExtractVersion("https://d.io/download", L.MAX_VERSION_LENGTH) == None
  {
    var url := "https://d.io/download";
    assert '-' !in url;
  }

  /** A redirect target whose only '.' is in the host name has no token:
      its final path segment has no '.'. */
  lemma HostDotExample()
    ensures ExtractVersion("d.io/app-linux", L.MAX_VERSION_LENGTH) == None
  {
    var url := "d.io/app-linux";
    assert url[5..] == "app-linux";
    LastIndexOfAt(url, '/', 4);
    assert '.' !in url[5..];
  }
}
