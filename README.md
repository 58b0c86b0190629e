# Update decision of the Discord Canary launcher

`launcher.c` asks two questions and compares the answers. First, which
version is installed: it reads `build_info.json` under `/opt/discord-canary`
and copies its `version` member into a 16-byte stack buffer. Second, which
version is published: it sends a body-less request to the canary download
endpoint, takes the `location` header of the redirect, and copies the
characters between the last `-` and the last `.` of that URL into a second
16-byte buffer. `need_update` returns -1 when either lookup fails. Otherwise
it returns whether glibc's `strverscmp` ranks the remote buffer above the
local one. `main` prints "Need update!" for any non-zero result.

This project models that decision in Dafny, in four modules:

- `Wrappers` (`wrappers.dfy`): `Option`, and `Behaviour`, which is either a
  value or undefined behaviour. A C program is undefined when it does
  pointer arithmetic on a null pointer, or when it hands a string routine
  a buffer that is not a C string.
  The model makes such cases an explicit `Undefined` result instead of
  excluding them by precondition.
- `CStrings` (`cstrings.dfy`): the C library routines the code relies on,
  as ISO C 7.24 defines them. `strrchr` is `LastIndexOf`. `strncpy` is
  `Strncpy`, and `StrncpyArray` applies it to an array in place, cell by
  cell. `ReadCString` is the string a routine such as `strverscmp` sees when
  handed a buffer: the characters before the buffer's first NUL, or `None`
  when the buffer has no NUL. Such a buffer is not a C string, so the
  routine's contract does not cover the call.
- `Launcher` (`launcher.dfy`): the code as written, with the size_t
  arithmetic and `strncpy` semantics spelled out. `get_remote_version` and
  `get_local_version` are methods that write into a caller-owned
  `array<char>`. `need_update` and `main` are methods that allocate the two
  16-byte buffers. The buffers' uninitialised contents are parameters
  (`localStack`, `remoteStack`).
- `Corrected` (`corrected.dfy`): the behaviour the code evidently intends
  (see "## Findings"). The token is looked for in the URL's final path
  segment, the text after its last `/`. It is found only when both
  delimiters are present there in the right order. A version that does
  not fit its 16-byte buffer with a terminator is an error, not a
  truncated copy. Both copies are NUL-terminated. `main` announces an
  update only for a positive result. The proved decision
  (`Corrected.Decision`) does not depend on the stack contents.

Outside effects become inputs:

- The outcome of the libcurl request and header lookup is a `Response`:
  the transfer failed, there is no `location` header, or its value.
- The outcome of json-c parsing is a `BuildInfo`: the file cannot be parsed,
  there is no `version` member, or its string form.
- `strverscmp` is a parameter `(string, string) -> int`. The code uses
  only its sign, so nothing else is assumed about it.
- `size_t` is 64 bits wide. Strings and buffers are at most `PTRDIFF_MAX`
  bytes long, which is the object size limit of that address space.

The `Launcher` module follows the code, even where it departs from the
behaviour the program is evidently meant to have. A redirect target
without a `-` or a `.` in its final path segment should give an error
code. The code searches the whole URL instead. When the whole URL lacks
a `-` or a `.`, it does null-pointer arithmetic
(`Launcher.MissingDashExample`). When only the final segment lacks one,
it takes the delimiter from earlier in the URL, such as the host name,
and copies the wrong text (`Launcher.ReversedLocationExample`). A
version that cannot be obtained should mean no update, reported as an
error. In the code, `main` prints "Need update!" for the -1 error result
(`Launcher.MainAnnouncesUpdateOnFailure`). The `Corrected` module models
the intended behaviour.

## Model

| member | source | states |
|---|---|---|
| `CStrings.LastIndexOf` | launcher.c:48-49 | strrchr: None exactly when the character is absent; otherwise an index holding it with no occurrence after it |
| `CStrings.LastIndexOfAt` | launcher.c:48-49 | any index holding the character with none after it is the one strrchr returns |
| `CStrings.StrncpyChars` | launcher.c:55 | the n cells strncpy stores: source character i while the source lasts, NUL padding after it |
| `CStrings.Strncpy` | launcher.c:55 | strncpy changes only the first n cells of the destination |
| `CStrings.StrncpyWithin` | launcher.c:55 | a source at least n long stores exactly its first n characters and nothing else |
| `CStrings.StrncpyArray` | launcher.c:25 | strncpy on an array leaves it equal to `Strncpy` of its old contents |
| `CStrings.StrncpyTerminated` | launcher.c:25 | a source shorter than n is left NUL-terminated and reads back unchanged |
| `CStrings.StrncpyUnterminated` | launcher.c:55 | a source of n or more characters leaves no NUL in the n cells; a later read continues into the old cells beyond them |
| `CStrings.ReadCString` | launcher.c:72 | the string strverscmp is handed: the characters before the first NUL, None exactly when the buffer has no NUL and so is not a C string |
| `CStrings.ReadCStringAfter` | launcher.c:72 | a read through a NUL-free prefix continues into what follows it |
| `CStrings.ReadStrncpyTerminated` | launcher.c:55 | strncpy of m characters plus a NUL in cell m reads back as the source cut to m characters |
| `Launcher.ToSizeT` | launcher.c:50 | pointer difference converted to size_t: unchanged when non-negative, plus 2^64 when negative |
| `Launcher.RemoteSpan` | launcher.c:47-53 | undefined exactly when '-' or '.' is missing; otherwise the copied length never exceeds the capacity |
| `Launcher.RemoteSpanOrdered` | launcher.c:47-53 | last '.' after last '-': copy starts after the '-' with the length between them clamped to the capacity |
| `Launcher.RemoteSpanReversed` | launcher.c:50-53 | last '.' before last '-': the wrapped length is clamped to exactly the capacity |
| `Launcher.StoredRemote` | launcher.c:47-55 | cells at and beyond the capacity keep their old contents |
| `Launcher.GetRemoteVersion` | launcher.c:30-57 | -1 and buffer unchanged on failed request, -2 and unchanged without location header, undefined when the span is, else 0 and the buffer is `StoredRemote` of its old contents |
| `Launcher.StoredRemoteOrdered` | launcher.c:47-55 | ordered delimiters: the first k cells hold exactly the token between them (k = its length clamped to capacity), with no NUL, and all later cells are unchanged |
| `Launcher.StoredRemoteReversed` | launcher.c:50-55 | reversed delimiters: all capacity cells are overwritten with what follows the last '-', NUL-padded |
| `Launcher.GetLocalVersion` | launcher.c:15-28 | -1 when unparsable, -2 without version member, buffer unchanged in both; else 0 and strncpy of the version with the full capacity |
| `Launcher.StoredLocalTermination` | launcher.c:25 | a version shorter than the buffer reads back intact; one of 16 or more characters leaves the buffer with no NUL |
| `Launcher.NeedUpdateResult` | launcher.c:59-73 | -1 exactly when a lookup fails; otherwise undefined or 0 or 1, never -1 |
| `Launcher.NeedUpdate` | launcher.c:59-73 | returns `NeedUpdateResult` of the lookups, the stack contents and strverscmp |
| `Launcher.NeedUpdateDecision` | launcher.c:72 | when both lookups succeed, the result is defined exactly when get_remote_version is and both buffers then hold a NUL; a defined result is 1 exactly when strverscmp of the two buffers' strings is positive, 0 otherwise |
| `Launcher.NeedUpdateTerminatedByStack` | launcher.c:60-72 | when the stack happens to hold a NUL right after a token shorter than 16, and the local version is shorter than 16, the result compares exactly that token with the local version |
| `Launcher.NeedUpdateUnterminated` | launcher.c:55-72 | with no NUL on the stack after the token, remote_version is not a C string, so the strverscmp call is undefined |
| `Launcher.MainResult` | launcher.c:75-91 | undefined exactly when curl initialised and need_update was undefined; exit -1 without curl, else 0; "Need update!" printed exactly when curl initialised and the result is not 0 |
| `Launcher.LauncherMain` | launcher.c:75-91 | returns `MainResult` of curl's initialisation and need_update's result |
| `Launcher.MainAnnouncesUpdateOnFailure` | launcher.c:84-86 | a failed lookup (-1) prints "Need update!" |
| `Launcher.MissingDashExample` | launcher.c:48 | `d.io/download` makes get_remote_version undefined |
| `Launcher.StoredRemoteReversedReads` | launcher.c:50-55 | reversed delimiters with a short tail: the buffer reads back as everything after the last '-' |
| `Launcher.ReversedLocationExample` | launcher.c:49-55 | `d.io/app-linux` stores "linux" as the remote version |
| `Launcher.NeedUpdateReversedExample` | launcher.c:59-73 | for `d.io/app-linux` and a local version that fits, need_update compares "linux" with it, whatever the stacks held |
| `Launcher.GarbageStackExample` | launcher.c:55 | `d.io/app-1.2.3.deb` over stack garbage with no NUL after cell 4: remote_version is left with no NUL, so it is not a C string |
| `Corrected.SegmentStart` | launcher.c:47-49 | the final path segment starts after the last '/' (at 0 without one) and holds no '/' |
| `Corrected.SegmentStartWithin` | launcher.c:47-49 | every suffix without '/' lies inside the final path segment |
| `Corrected.ExtractVersion` | launcher.c:47-53 | None when the final segment lacks '-' or '.'; a found token is shorter than the capacity, has no '-' and no '/', and is a C string |
| `Corrected.SegmentToken` | launcher.c:47-53 | None when the segment lacks a delimiter; a found token fits, has no '-', and comes from the segment |
| `Corrected.SegmentTokenAt` | launcher.c:47-53 | at known last delimiters: the text between them when ordered and fitting, else None |
| `Corrected.ExtractVersionAt` | launcher.c:47-53 | at known last delimiters with no '/' after them: the text between them when ordered and fitting, else None |
| `Corrected.ExtractVersionOf` | launcher.c:47-53 | the token of p-t.q (t and q without '-' or '/', q without '.') is t when it fits the buffer, none otherwise |
| `Corrected.ExtractVersionReversed` | launcher.c:50-53 | last '.' before last '-' in the final segment: no token |
| `Corrected.HostDelimitersExample` | launcher.c:47-49 | `a-b.io/app.linux` has no token: a '-' in the host name is ignored |
| `Corrected.StoreToken` | launcher.c:55 | the copy of a fitting token with its NUL reads back as the token; cells past the capacity unchanged |
| `Corrected.GetRemoteVersion` | launcher.c:30-57 | -1 / -2 / -3 (no token) with the buffer unchanged; else 0 and the buffer reads back as exactly the token, cells past the capacity unchanged |
| `Corrected.GetLocalVersion` | launcher.c:15-28 | -1 / -2, and -3 for a version as long as the buffer or longer, with the buffer unchanged; else 0 and the buffer reads back as exactly the version |
| `Corrected.Decision` | launcher.c:59-73 | -1 exactly when a lookup fails, the local version does not fit, or the target has no fitting token; otherwise 1 exactly when strverscmp(token, local version) is positive, and 0 otherwise |
| `Corrected.NeedUpdate` | launcher.c:59-73 | returns `Decision` of the lookups, whatever the stack buffers held |
| `Corrected.MainResult` | launcher.c:84-86 | prints "Need update!" exactly when curl initialised and the decision is positive |
| `Corrected.LauncherMain` | launcher.c:75-91 | returns `MainResult` of curl's initialisation and `Decision` |
| `Corrected.MainSilentOnFailure` | launcher.c:84-86 | a failed lookup prints nothing |
| `Corrected.DecisionOnToken` | launcher.c:64-72 | for p-t.q (t and q without '/') the decision compares exactly t with the local version; equal versions need no update |
| `Corrected.DebLocationExample` | launcher.c:47-53 | token of `https://d.io/app-1.2.3.deb` is "1.2.3" |
| `Corrected.MissingDashExample` | launcher.c:48 | `https://d.io/download` has no token |
| `Corrected.HostDotExample` | launcher.c:49-53 | `d.io/app-linux` has no token: its only '.' is in the host name |

## Left out

- libcurl setup, perform, header lookup and cleanup (launcher.c:38-45, 80-82, 89) are foreign calls. Their outcome is the `Response` input, and `curl_easy_init`'s success is a boolean.
- json-c parsing (launcher.c:16-24, 26) is a foreign call, and its outcome is the `BuildInfo` input. The reference leaked on the -2 path (the missing `json_object_put`) is memory management, which is not modelled.
- `getuid` and `setuid` (launcher.c:79, 88) change process state, which is not modelled.
- The `printf` call (launcher.c:85) is I/O, so the model records only whether it happens.
- The internals of glibc's `strverscmp` are in a foreign library. It is a parameter, and only the sign of its result is used (launcher.c:72).
- Characters are Dafny `char`, not C bytes. The model has no signedness and no encoding, which the code never relies on.
- Package download, archive extraction, progress reporting and path rewriting are not part of `launcher.c`. `launcher.c` has no code for them, so they are not modelled.
- `Launcher.GetRemoteVersion`: when the span is undefined, its contract says nothing about the buffer, because C says nothing about it either.

## Findings

| source | as written | input that shows it | evidently intended | confidence | as-written member | corrected member |
|---|---|---|---|---|---|---|
| launcher.c:55 | strncpy copies the token with no terminator into an uninitialised buffer, which is then handed to strverscmp although it may not be a C string | location `d.io/app-1.2.3.deb` with stack bytes 5-15 of `remote_version` all non-zero | store "1.2.3" followed by a NUL | high (not executed) | `Launcher.NeedUpdateUnterminated` | `Corrected.GetRemoteVersion` |
| launcher.c:25 | strncpy with the full buffer size leaves a version of 16 or more characters unterminated | `build_info.json` with version `0.0.12345678901234` | a terminated copy; a version too long for the buffer is an error | high (not executed) | `Launcher.StoredLocalTermination` | `Corrected.GetLocalVersion` |
| launcher.c:48-49 | no check that '-' and '.' exist, so a null pointer is offset | location `d.io/download` | return an error code | high (not executed) | `Launcher.MissingDashExample` | `Corrected.ExtractVersion` |
| launcher.c:50-53 | a '.' before the last '-' wraps the length, which is then clamped to the whole buffer | location `d.io/app-linux` (remote version read as "linux") | no token, an error code | high (not executed) | `Launcher.ReversedLocationExample` | `Corrected.HostDotExample` |
| launcher.c:84 | the -1 error result is non-zero, so it prints "Need update!" | `build_info.json` missing | announce an update only for result 1 | medium (not executed) | `Launcher.MainAnnouncesUpdateOnFailure` | `Corrected.MainSilentOnFailure` |
