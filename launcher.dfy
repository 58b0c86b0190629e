/** The update decision of launcher.c, as the code is written: the version
    token is cut out of the redirect target by pointer arithmetic on size_t,
    clamped to the destination's capacity and copied with strncpy, the local
    version is copied with strncpy, and need_update compares the two buffers
    with strverscmp. Network and JSON steps are opaque outcomes; strverscmp
    is a parameter. Undefined behaviour of the C code is an explicit
    `Undefined` outcome. */
module Launcher {
  import opened Wrappers
  import opened CStrings

  /** Size of need_update's two stack buffers (launcher.c:13). */
  const MAX_VERSION_LENGTH: nat := 16

  /** size_t is 64 bits wide; objects are at most PTRDIFF_MAX bytes long. */
  const SIZE_MODULUS: int := 0x1_0000_0000_0000_0000
  const PTRDIFF_MAX: nat := 0x7FFF_FFFF_FFFF_FFFF

  /** What json_object_from_file(BUILD_INFO) and the lookup of its
      "version" member produce: no parsed object, no such member (a JSON
      null counts as absent), or the member's string form. */
  datatype BuildInfo = Unparsable | NoVersionField | VersionField(version: string)

  /** What curl_easy_perform and curl_easy_header(curl, "location", ...)
      produce: a failed transfer, no location header, or its value. */
  datatype Response = PerformFailed | NoLocationHeader | LocationHeader(location: string)

  /** The source position and the length strncpy is given. */
  datatype Span = Span(start: nat, length: nat)

  /** What the launcher exits with and whether it printed "Need update!". */
  datatype Exit = Exit(status: int, printsNeedUpdate: bool)

  /** Conversion of a pointer difference to size_t (modulo 2^64). */
  function ToSizeT(d: int): (r: nat)
    requires -SIZE_MODULUS <= d < SIZE_MODULUS
    ensures r < SIZE_MODULUS
    ensures 0 <= d ==> r == d
    ensures d < 0 ==> r == d + SIZE_MODULUS
  {
    d % SIZE_MODULUS
  }

  /** The well-formedness of get_remote_version's inputs: the header value
      is a C string and both objects fit the address space. */
  predicate RemoteInputs(url: string, versionStringLength: nat) {
    IsCString(url) && |url| <= PTRDIFF_MAX && versionStringLength <= PTRDIFF_MAX
  }

  /** The span get_remote_version hands strncpy (launcher.c:47-53). With
      no '-' the start pointer is a null pointer plus one, and with no '.'
      the end pointer is null: both are undefined behaviour. */
  function RemoteSpan(url: string, versionStringLength: nat): (r: Behaviour<Span>)
    requires RemoteInputs(url, versionStringLength)
    ensures r.Undefined? <==> '-' !in url || '.' !in url
    ensures r.Defined? ==> r.value.length <= versionStringLength && r.value.start <= |url|
  {
    match (LastIndexOf(url, '-'), LastIndexOf(url, '.'))
    case (Some(dash), Some(dot)) =>
      var versionStart := dash + 1;
      var versionLength := ToSizeT(dot as int - versionStart as int);
      Defined(Span(versionStart,
                   if versionStringLength < versionLength then versionStringLength
                   else versionLength))
    case _ => Undefined
  }

  /** When the last '.' follows the last '-', strncpy is given exactly the
      characters strictly between them, clamped to the capacity. */
  lemma RemoteSpanOrdered(url: string, cap: nat, dash: nat, dot: nat)
    requires RemoteInputs(url, cap)
    requires dash < dot < |url|
    requires url[dash] == '-' && '-' !in url[dash + 1..]
    requires url[dot] == '.' && '.' !in url[dot + 1..]
    ensures RemoteSpan(url, cap)
            == Defined(Span(dash + 1, if cap < dot - dash - 1 then cap else dot - dash - 1))
  {
    LastIndexOfAt(url, '-', dash);
    LastIndexOfAt(url, '.', dot);
  }

  /** When the last '.' comes before the last '-', the negative difference
      wraps to a size_t above any capacity and is clamped: strncpy is given
      the whole capacity, starting after the last '-'. */
  lemma RemoteSpanReversed(url: string, cap: nat, dash: nat, dot: nat)
    requires RemoteInputs(url, cap)
    requires dot < dash < |url|
    requires url[dash] == '-' && '-' !in url[dash + 1..]
    requires url[dot] == '.' && '.' !in url[dot + 1..]
    ensures RemoteSpan(url, cap) == Defined(Span(dash + 1, cap))
  {
    LastIndexOfAt(url, '-', dash);
    LastIndexOfAt(url, '.', dot);
  }

  /** The destination buffer after get_remote_version succeeds, or
      Undefined when the span is. */
  function StoredRemote(buf: seq<char>, url: string, cap: nat): (r: Behaviour<seq<char>>)
    requires RemoteInputs(url, cap) && cap <= |buf|
    ensures r.Defined? ==> |r.value| == |buf| && r.value[cap..] == buf[cap..]
  {
    match RemoteSpan(url, cap)
    case Undefined => Undefined
    case Defined(sp) => Defined(Strncpy(buf, url[sp.start..], sp.length))
  }

  /** get_remote_version (launcher.c:30-57): -1 when the request fails, -2
      when there is no location header, otherwise 0 after the strncpy. */
  method GetRemoteVersion(response: Response, versionString: array<char>, versionStringLength: nat)
    returns (rc: Behaviour<int>)
    requires versionStringLength <= versionString.Length && versionStringLength <= PTRDIFF_MAX
    requires response.LocationHeader? ==> RemoteInputs(response.location, versionStringLength)
    modifies versionString
    ensures response.PerformFailed? ==> rc == Defined(-1) && versionString[..] == old(versionString[..])
    ensures response.NoLocationHeader? ==> rc == Defined(-2) && versionString[..] == old(versionString[..])
    ensures response.LocationHeader? ==>
              match StoredRemote(old(versionString[..]), response.location, versionStringLength)
              case Undefined => rc == Undefined
              case Defined(after) => rc == Defined(0) && versionString[..] == after
  {
    match response
    case PerformFailed => return Defined(-1);
    case NoLocationHeader => return Defined(-2);
    case LocationHeader(latestUrl) =>
      match RemoteSpan(latestUrl, versionStringLength)
      case Undefined => return Undefined;
      case Defined(sp) =>
        StrncpyArray(versionString, latestUrl[sp.start..], sp.length);
        return Defined(0);
  }

  /** Ordered delimiters: the first k cells receive exactly the token
      between the last '-' and the last '.', k being its length clamped to
      the capacity; no terminator is written and every later cell keeps its
      old contents. */
  lemma StoredRemoteOrdered(buf: seq<char>, url: string, cap: nat, dash: nat, dot: nat)
    requires RemoteInputs(url, cap) && cap <= |buf|
    requires dash < dot < |url|
    requires url[dash] == '-' && '-' !in url[dash + 1..]
    requires url[dot] == '.' && '.' !in url[dot + 1..]
    ensures StoredRemote(buf, url, cap).Defined?
    ensures var k := if cap < dot - dash - 1 then cap else dot - dash - 1;
            var after := StoredRemote(buf, url, cap).value;
            && after[..k] == url[dash + 1..dash + 1 + k]
            && after[k..] == buf[k..]
            && NUL !in after[..k]
  {
    var k := if cap < dot - dash - 1 then cap else dot - dash - 1;
    RemoteSpanOrdered(url, cap, dash, dot);
    var src := url[dash + 1..];
    var after := Strncpy(buf, src, k);
    assert StoredRemote(buf, url, cap) == Defined(after);
    StrncpyWithin(buf, src, k);
    assert after[..k] == src[..k] == url[dash + 1..dash + 1 + k];
    assert after[k..] == buf[k..];
  }

  /** Reversed delimiters: all cap cells are overwritten with what follows
      the last '-', NUL-padded when that is shorter than the capacity. */
  lemma StoredRemoteReversed(buf: seq<char>, url: string, cap: nat, dash: nat, dot: nat)
    requires RemoteInputs(url, cap) && cap <= |buf|
    requires dot < dash < |url|
    requires url[dash] == '-' && '-' !in url[dash + 1..]
    requires url[dot] == '.' && '.' !in url[dot + 1..]
    ensures && StoredRemote(buf, url, cap).Defined?
            && StoredRemote(buf, url, cap).value[..cap] == StrncpyChars(url[dash + 1..], cap)
            && StoredRemote(buf, url, cap).value[cap..] == buf[cap..]
  {
    RemoteSpanReversed(url, cap, dash, dot);
  }

  /** get_local_version (launcher.c:15-28): -1 when build_info.json cannot
      be parsed, -2 when it has no "version" member, otherwise 0 after
      strncpy of the version string with the full capacity as bound. */
  method GetLocalVersion(buildInfo: BuildInfo, versionString: array<char>, versionStringLength: nat)
    returns (rc: int)
    requires versionStringLength <= versionString.Length
    requires buildInfo.VersionField? ==> IsCString(buildInfo.version)
    modifies versionString
    ensures buildInfo.Unparsable? ==> rc == -1 && versionString[..] == old(versionString[..])
    ensures buildInfo.NoVersionField? ==> rc == -2 && versionString[..] == old(versionString[..])
    ensures buildInfo.VersionField? ==>
              rc == 0 && versionString[..] == Strncpy(old(versionString[..]), buildInfo.version, versionStringLength)
  {
    match buildInfo
    case Unparsable => return -1;
    case NoVersionField => return -2;
    case VersionField(vs) =>
      StrncpyArray(versionString, vs, versionStringLength);
      return 0;
  }

  /** A local version shorter than the capacity is stored NUL-terminated;
      one of cap characters or more fills the buffer with no terminator. */
  lemma StoredLocalTermination(buf: seq<char>, vs: string, cap: nat)
    requires IsCString(vs) && cap <= |buf|
    ensures |vs| < cap ==> ReadCString(Strncpy(buf, vs, cap)) == Some(vs)
    ensures |vs| >= cap ==> NUL !in Strncpy(buf, vs, cap)[..cap]
  {
    if |vs| < cap {
      StrncpyTerminated(buf, vs, cap);
    } else {
      StrncpyUnterminated(buf, vs, cap);
    }
  }

  /** The well-formedness of need_update's inputs: the opaque outcomes
      carry C strings and the stack buffers have their declared size. */
  predicate NeedUpdateInputs(buildInfo: BuildInfo, response: Response,
                             localStack: seq<char>, remoteStack: seq<char>)
  {
    && |localStack| == MAX_VERSION_LENGTH && |remoteStack| == MAX_VERSION_LENGTH
    && (buildInfo.VersionField? ==> IsCString(buildInfo.version))
    && (response.LocationHeader? ==> RemoteInputs(response.location, MAX_VERSION_LENGTH))
  }

  /** What need_update returns (launcher.c:59-73), given the uninitialised
      contents of its two stack buffers: -1 when either lookup fails,
      otherwise whether strverscmp of the two buffers is positive. A buffer
      left with no NUL is not a C string, so handing it to strverscmp is
      outside that function's contract: the result is undefined. The
      comparison is consulted only when both lookups succeed, and then the
      result is never -1. */
  function NeedUpdateResult(buildInfo: BuildInfo, response: Response,
                            localStack: seq<char>, remoteStack: seq<char>,
                            strverscmp: (string, string) -> int): (r: Behaviour<int>)
    requires NeedUpdateInputs(buildInfo, response, localStack, remoteStack)
    ensures r == Defined(-1) <==> !buildInfo.VersionField? || !response.LocationHeader?
    ensures r.Defined? ==> -1 <= r.value <= 1
  {
    match buildInfo
    case Unparsable => Defined(-1)
    case NoVersionField => Defined(-1)
    case VersionField(vs) =>
      match response
      case PerformFailed => Defined(-1)
      case NoLocationHeader => Defined(-1)
      case LocationHeader(url) =>
        match StoredRemote(remoteStack, url, MAX_VERSION_LENGTH)
        case Undefined => Undefined
        case Defined(remoteBuf) =>
          var localBuf := Strncpy(localStack, vs, MAX_VERSION_LENGTH);
          match (ReadCString(remoteBuf), ReadCString(localBuf))
          case (Some(remote), Some(local)) =>
            Defined(if strverscmp(remote, local) > 0 then 1 else 0)
          case _ => Undefined
  }

  /** need_update (launcher.c:59-73) over freshly allocated buffers whose
      initial contents are localStack and remoteStack. */
  method NeedUpdate(buildInfo: BuildInfo, response: Response,
                    localStack: seq<char>, remoteStack: seq<char>,
                    strverscmp: (string, string) -> int)
    returns (r: Behaviour<int>)
    requires NeedUpdateInputs(buildInfo, response, localStack, remoteStack)
    ensures r == NeedUpdateResult(buildInfo, response, localStack, remoteStack, strverscmp)
  {
    var localVersion := new char[MAX_VERSION_LENGTH](i requires 0 <= i < MAX_VERSION_LENGTH => localStack[i]);
    var remoteVersion := new char[MAX_VERSION_LENGTH](i requires 0 <= i < MAX_VERSION_LENGTH => remoteStack[i]);
    assert localVersion[..] == localStack;
    assert remoteVersion[..] == remoteStack;

    var rc := GetLocalVersion(buildInfo, localVersion, localVersion.Length);
    if rc < 0 {
      return Defined(-1);
    }
    var rcRemote := GetRemoteVersion(response, remoteVersion, remoteVersion.Length);
    match rcRemote
    case Undefined =>
      return Undefined;
    case Defined(code) =>
      if code < 0 {
        return Defined(-1);
      }
      var remote := ReadCString(remoteVersion[..]);
      var local := ReadCString(localVersion[..]);
      if remote.None? || local.None? {
        return Undefined;
      }
      return Defined(if strverscmp(remote.value, local.value) > 0 then 1 else 0);
  }

  /** When both lookups succeed, need_update never returns -1. Its result
      is defined exactly when get_remote_version is defined and both
      buffers then hold a NUL, and a defined result is 1 exactly when
      strverscmp of what the two buffers hold is positive, and 0
      otherwise. */
  lemma NeedUpdateDecision(buildInfo: BuildInfo, response: Response,
                           localStack: seq<char>, remoteStack: seq<char>,
                           strverscmp: (string, string) -> int)
    requires NeedUpdateInputs(buildInfo, response, localStack, remoteStack)
    requires buildInfo.VersionField? && response.LocationHeader?
    ensures var r := NeedUpdateResult(buildInfo, response, localStack, remoteStack, strverscmp);
            var stored := StoredRemote(remoteStack, response.location, MAX_VERSION_LENGTH);
            var localBuf := Strncpy(localStack, buildInfo.version, MAX_VERSION_LENGTH);
            && (r.Defined? <==>
                  stored.Defined? && ReadCString(stored.value).Some? && ReadCString(localBuf).Some?)
            && (r.Defined? ==>
                  && (r.value == 1 <==>
                        strverscmp(ReadCString(stored.value).value, ReadCString(localBuf).value) > 0)
                  && (r.value == 0 || r.value == 1))
  {
  }

  /** The intended decision, reached only when the stack happens to hold a
      NUL just after the copied token: with a local version shorter than the
      buffer and a token of k < 16 characters between the last '-' and the
      last '.', need_update compares exactly that token with the version. */
  lemma NeedUpdateTerminatedByStack(vs: string, url: string,
                                    localStack: seq<char>, remoteStack: seq<char>,
                                    strverscmp: (string, string) -> int, dash: nat, dot: nat)
    requires NeedUpdateInputs(VersionField(vs), LocationHeader(url), localStack, remoteStack)
    requires |vs| < MAX_VERSION_LENGTH
    requires dash < dot < |url| && dot - dash - 1 < MAX_VERSION_LENGTH
    requires url[dash] == '-' && '-' !in url[dash + 1..]
    requires url[dot] == '.' && '.' !in url[dot + 1..]
    requires remoteStack[dot - dash - 1] == NUL
    ensures NeedUpdateResult(VersionField(vs), LocationHeader(url), localStack, remoteStack, strverscmp)
            == Defined(if strverscmp(url[dash + 1..dot], vs) > 0 then 1 else 0)
  {
    var k := dot - dash - 1;
    StoredRemoteOrdered(remoteStack, url, MAX_VERSION_LENGTH, dash, dot);
    var remoteBuf := StoredRemote(remoteStack, url, MAX_VERSION_LENGTH).value;
    assert remoteBuf == url[dash + 1..dot] + remoteBuf[k..] by {
      assert remoteBuf[..k] == url[dash + 1..dot];
    }
    assert remoteBuf[k..][0] == NUL;
    ReadCStringAfter(url[dash + 1..dot], remoteBuf[k..]);
    StoredLocalTermination(localStack, vs, MAX_VERSION_LENGTH);
  }

  /** When the stack holds no NUL after the copied token, remote_version
      is not a C string, so the strverscmp call is outside its contract:
      the behaviour is undefined. */
  lemma NeedUpdateUnterminated(vs: string, url: string,
                               localStack: seq<char>, remoteStack: seq<char>,
                               strverscmp: (string, string) -> int, dash: nat, dot: nat)
    requires NeedUpdateInputs(VersionField(vs), LocationHeader(url), localStack, remoteStack)
    requires dash < dot < |url| && dot - dash - 1 < MAX_VERSION_LENGTH
    requires url[dash] == '-' && '-' !in url[dash + 1..]
    requires url[dot] == '.' && '.' !in url[dot + 1..]
    requires NUL !in remoteStack[dot - dash - 1..]
    ensures NeedUpdateResult(VersionField(vs), LocationHeader(url), localStack, remoteStack, strverscmp)
            == Undefined
  {
    var k := dot - dash - 1;
    RemoteSpanOrdered(url, MAX_VERSION_LENGTH, dash, dot);
    StrncpyUnterminated(remoteStack, url[dash + 1..], k);
  }

  /** main's exit status and output (launcher.c:75-91), given whether
      curl_easy_init succeeded and what need_update returned. */
  function MainResult(curlInitOk: bool, needUpdate: Behaviour<int>): (r: Behaviour<Exit>)
    ensures r.Undefined? <==> curlInitOk && needUpdate.Undefined?
    ensures r.Defined? ==> r.value.status == (if curlInitOk then 0 else -1)
    ensures r.Defined? ==> (r.value.printsNeedUpdate <==> curlInitOk && needUpdate != Defined(0))
  {
    if !curlInitOk then Defined(Exit(-1, false))
    else match needUpdate
         case Undefined => Undefined
         case Defined(rc) => Defined(Exit(0, rc != 0))
  }

  /** main (launcher.c:75-91): initialise curl, ask need_update, announce
      an update for any non-zero result. */
  method LauncherMain(curlInitOk: bool, buildInfo: BuildInfo, response: Response,
                      localStack: seq<char>, remoteStack: seq<char>,
                      strverscmp: (string, string) -> int)
    returns (r: Behaviour<Exit>)
    requires NeedUpdateInputs(buildInfo, response, localStack, remoteStack)
    ensures r == MainResult(curlInitOk,
                            NeedUpdateResult(buildInfo, response, localStack, remoteStack, strverscmp))
  {
    if !curlInitOk {
      return Defined(Exit(-1, false));
    }
    var needUpdate := NeedUpdate(buildInfo, response, localStack, remoteStack, strverscmp);
    match needUpdate
    case Undefined => return Undefined;
    case Defined(rc) =>
      return Defined(Exit(0, rc != 0));
  }

  /** A failed version lookup is announced as "Need update!": main tests
      need_update's result for non-zero, and -1 is non-zero. */
  lemma MainAnnouncesUpdateOnFailure(buildInfo: BuildInfo, response: Response,
                                     localStack: seq<char>, remoteStack: seq<char>,
                                     strverscmp: (string, string) -> int)
    requires NeedUpdateInputs(buildInfo, response, localStack, remoteStack)
    requires !buildInfo.VersionField? || !response.LocationHeader?
    ensures MainResult(true, NeedUpdateResult(buildInfo, response, localStack, remoteStack, strverscmp))
            == Defined(Exit(0, true))
  {
  }

  /** A redirect target with no '-' sends get_remote_version into
      undefined behaviour instead of an error code. */
  lemma MissingDashExample(buf: seq<char>)
    requires |buf| == MAX_VERSION_LENGTH
    ensures StoredRemote(buf, "d.io/download", MAX_VERSION_LENGTH) == Undefined
  {
    var url := "d.io/download";
    assert '-' !in url;
    assert RemoteSpan(url, MAX_VERSION_LENGTH) == Undefined;
  }

  /** A redirect target whose last '.' comes before its last '-', with
      fewer characters after the '-' than the buffer holds: the buffer
      reads back as everything after the last '-'. */
  lemma StoredRemoteReversedReads(buf: seq<char>, url: string, cap: nat, dash: nat, dot: nat)
    requires RemoteInputs(url, cap) && cap == |buf|
    requires dot < dash < |url| && |url| - dash - 1 < cap
    requires url[dash] == '-' && '-' !in url[dash + 1..]
    requires url[dot] == '.' && '.' !in url[dot + 1..]
    ensures var after := StoredRemote(buf, url, cap);
            after.Defined? && ReadCString(after.value) == Some(url[dash + 1..])
  {
    var tail := url[dash + 1..];
    StoredRemoteReversed(buf, url, cap, dash, dot);
    var after := StoredRemote(buf, url, cap).value;
    assert after == after[..cap] == StrncpyChars(tail, cap) == Strncpy(buf, tail, cap);
    StrncpyTerminated(buf, tail, cap);
  }

  /** A redirect target whose last '.' is in the host name: the whole
      capacity is copied from after the last '-', so "linux" is read as the
      remote version. */
  lemma ReversedLocationExample(buf: seq<char>)
    requires |buf| == MAX_VERSION_LENGTH
    ensures var after := StoredRemote(buf, "d.io/app-linux", MAX_VERSION_LENGTH);
            && after.Defined? && ReadCString(after.value) == Some("linux")
  {
    LinuxLocation();
    StoredRemoteReversedReads(buf, "d.io/app-linux", MAX_VERSION_LENGTH, 8, 1);
  }

  /** Where the delimiters of d.io/app-linux are. */
  lemma LinuxLocation()
    ensures var url := "d.io/app-linux";
            && RemoteInputs(url, MAX_VERSION_LENGTH) && |url| == 14
            && url[8] == '-' && '-' !in url[9..] && url[9..] == "linux"
            && url[1] == '.' && '.' !in url[2..]
  {
    var url := "d.io/app-linux";
    assert url[9..] == "linux" && url[2..] == "io/app-linux";
  }

  /** need_update for the redirect target d.io/app-linux and a local
      version that fits: whatever the stacks held, "linux" is compared
      with the local version as if it were the published version. */
  lemma NeedUpdateReversedExample(vs: string, localStack: seq<char>, remoteStack: seq<char>,
                                  strverscmp: (string, string) -> int)
    requires NeedUpdateInputs(VersionField(vs), LocationHeader("d.io/app-linux"), localStack, remoteStack)
    requires |vs| < MAX_VERSION_LENGTH
    ensures NeedUpdateResult(VersionField(vs), LocationHeader("d.io/app-linux"), localStack, remoteStack, strverscmp)
            == Defined(if strverscmp("linux", vs) > 0 then 1 else 0)
  {
    ReversedLocationExample(remoteStack);
    StoredLocalTermination(localStack, vs, MAX_VERSION_LENGTH);
  }

  /** A redirect target of the usual shape over stack garbage with no NUL
      after the five token characters: remote_version holds no NUL, so what
      strverscmp is handed is not a C string. */
  lemma GarbageStackExample(garbage: seq<char>)
    requires |garbage| == MAX_VERSION_LENGTH && NUL !in garbage[5..]
    ensures var after := StoredRemote(garbage, "d.io/app-1.2.3.deb", MAX_VERSION_LENGTH);
            && after.Defined? && ReadCString(after.value) == None
  {
    var url := "d.io/app-1.2.3.deb";
    assert url[8..] == "-1.2.3.deb" && url[15..] == "deb";
    RemoteSpanOrdered(url, MAX_VERSION_LENGTH, 8, 14);
    StrncpyUnterminated(garbage, url[9..], 5);
  }
}
