# Verification model of the workspace broker

The broker is a small privileged process inside a workspace VM. It holds one cap-URL per repo and,
optionally, the credentials of a forge owner. A unix socket and an HTTP control endpoint share one
credential cell. Git and forge operations run through it, but their output must never show a
credential, and HTTP must never add an SSH key without the authorized-keys cap. The unix socket adds
keys without any token (`src/dispatch.rs:82`): that only the broker's own uid can reach it rests on
its file mode 0600 (`src/server.rs:45`), which is not part of this model.

This project models that behaviour in Dafny 4.11 and proves its properties. `dafny verify
dfyconfig.toml` checks everything.

| file | models |
|---|---|
| `Text.dfy` | trimming, leftmost search, `split_once`, `replace`, `lines`, `split_whitespace` |
| `GitOps.dfy` | repo confinement, the git command line, redaction of git output |
| `ConstantTime.dfy` | `constant_time_eq`, with XOR and OR defined bit by bit |
| `HttpFrame.dfy` | boundary finder, request parser, bearer extractor, and the message format they invert |
| `HttpConn.dfy` | the bounded read loop over any schedule of reads, errors and timers |
| `HttpCtrl.dfy` | add-key and scrub handlers, authorization from frame text, response printer |
| `CapsDir.dfy` | the caps directory, the fresh cap read, removal of credential files |
| `Creds.dfy` | the credential cell: load, scrub, snapshot, sorted name list |
| `Lifecycle.dfy` | both listeners, the cell, the files and in-flight work as one transition system |
| `AuthorizedKeys.dfy` | validate, duplicate scan and append, over any sequence of calls |
| `GitSession.dfy` | the expiring push-cap registry against its event history |
| `ForgeClient.dfy`, `PushCaps.dfy` | token minting (list, delete, mint) and push-cap registration |
| `Contents.dfy` | padded base64 and white-space stripping |

Code that works by changing state is a class or a method with a loop (the credential cell, the cap
files, the key file, the session registry, the forge server, the read loop, the comparison loop,
the parser's header loop). Each is proved against a specification function, and the lemmas are about
that function. The life cycle is a transition system: every interleaving is a sequence of events.

## Conventions

- Text is a sequence of bytes, one `char` per byte. White space is space and tab to carriage return.
- Libraries that are not part of this model enter as parameters: the JSON readers (`Libs`), git
  itself (any function from command to exit status and output), the privileged append, the clock
  (an integer), generated cap-keys and secrets.
- A directory maps names to contents; `None` marks a file that cannot be read. What a directory
  scan yields is a separate list, so an incomplete or failing scan is covered.
- Failures of the forge, of file operations and of removals are inputs, not preconditions.

## Where the code and the obvious claim differ

- **Redaction of the cap-URL.** `sanitize` looks for the stored URL, git gets it without trailing
  slashes, and the masks themselves are text: the URL `e` is turned into `[remote]`, which shows it
  (`MaskShowsShortUrl`).
  The remote stays hidden for all outputs exactly when it contains the marker, or the stored URL has
  no trailing slash and is not `Forgeable`, that is, no mask fits into it in a place where it is
  emitted (`RemoteHiddenExactly`, with `TrailingSlashLeaks`). URLs that disagree with both masks
  wherever they overlap pass the simpler test `Unforgeable`, among them all `http…` URLs in which
  every `[` is followed by a character other than `r`.
- **Failure prefix.** `git Push failed: ` itself contains the remote `:` (`ColonIsReported`), and
  together with the output `x` it spells the remote `failed: x` (`JoinIsReported`). So the prefix
  must neither contain the URL nor end in a beginning of it; with that the condition of
  `ReportHidesRemoteExactly` is exact for every non-empty URL. Every such `http…` URL without a
  trailing slash meets it, white space or not (`HttpCapUrlIsNeverReported`).
- **`constant_time_eq`** folds the length difference into 8 bits. It accepts unequal inputs exactly
  when one is the other plus a positive multiple of 256 NUL bytes (`FalseAcceptExactly`), and so does
  the endpoint, from frame text (`FrameAuthorizedExactly`).
- **The 50 ms timer** can cut a request short behind any boundary. A text keeps its head on every
  schedule exactly if no bare-LF boundary stands in front of its first CRLF one (`TimerSafeExactly`);
  well-formed requests with CRLF line ends are of that kind (`RenderedIsSafe`). Method and path never
  change; what can get lost is an `Authorization` header between a bare-LF boundary and a later CRLF
  one (`TimerHidesOnlyLateAuthorization`), and on the schedules of `TimerAtBareLfChangesHead` it does.
- **A peer that stays open.** The timer runs in every second read behind the boundary only. A head and
  a body that arrive as two pieces without a pause are never answered unless the peer closes
  (`TwoPiecesThenSilenceHang`); `SilentPeerAnsweredExactly` says when a silent peer is.
- **The key append** assumes a newline-terminated file; on any other file the key is glued to the
  last line (`AppendIsALineExactly`), and repeating the call can then append once more
  (`RepeatedAddChangesNothingExactly`).
- **A failed push-cap registration** leaves every session unchanged, but not always the token of the
  repo's live session: when the delete goes through and the mint does not, the session still resolves,
  to a secret the forge no longer knows (`FailedCallKillsTokenExactly`, `DeclinedMintKillsToken`).
- **Reload on the next operation** (comment at `src/creds.rs:122-123`) does not happen: credentials
  are loaded at process start only, so a cleared cell stays empty whatever the supervisor writes
  (`ScrubIsFinal`).
- **`needs_credential` after a scrub** (comments at `src/creds.rs:45-46` and `src/http_ctrl.rs:49`) is
  what forge operations return (`ForgeOpAfterScrubNeedsCredential`), but not git operations: they run
  against the repo's own `origin` (`OpAfterScrubUsesOrigin`).

## Model

| member | source | states |
|---|---|---|
| GitOps.SafeRepoExact | src/git_ops.rs:19-28 | The component test accepts exactly the non-empty names without `/` that are neither `.` nor `..`; the error is `Invalid` exactly for the empty name |
| GitOps.WorkingCopyIsDirectChild | src/git_ops.rs:38-39 | For every projects root, the working copy of an accepted repo has the root's path components plus that one name |
| GitOps.DistinctReposDistinctDirectories | src/git_ops.rs:38-39 | Different accepted repos never share a working copy, as strings and as paths |
| GitOps.OtherNamesAreRefused | src/git_ops.rs:19-38 | `run_git_op` refuses the empty name as `Invalid` and names with `/`, `.` and `..` as `Forbidden`, and starts no git, whatever git would have done |
| GitOps.PlainNamesRunGit | src/git_ops.rs:38-79 | For every other name it starts one command: the request's verb, the stored URL less its trailing slashes (or `origin`), a given ref last; push and fetch run in the directory of that name right below the root, clone runs in the root with that directory as target |
| GitOps.GitDecidesResult | src/git_ops.rs:75-97 | Success exactly when git exits with success, with the sha of that directory; clean output is passed on unchanged, stdout first, behind the failure text if it failed; a git that does not start is reported as such |
| GitOps.ReplaceCreatesNothing | src/git_ops.rs:101-107 | Any text that cannot overlap the mask and survives a replacement was there before, and is not the pattern: the second pass never recreates what the first removed |
| GitOps.HttpUrlIsUnforgeable | src/git_ops.rs:41-45 | `http…` cap-URLs, bracketed IPv6 hosts included, cannot overlap either mask |
| GitOps.ColonUrlIsUnforgeable | src/git_ops.rs:41-45 | Nor can any bracket-free URL with a colon |
| GitOps.MarkerNeverSurvives | src/git_ops.rs:101-107 | The token marker is absent from every sanitized text, for every cap-URL |
| GitOps.UrlNeverSurvives | src/git_ops.rs:101-107 | A stored URL that is `Unforgeable` (it disagrees with both masks wherever they overlap) is absent from every sanitized text |
| GitOps.UnforgeableIsNotForgeable | src/git_ops.rs:101-107 | That simple test implies the exact one |
| GitOps.UrlHiddenExactly | src/git_ops.rs:101-107 | For every non-empty stored URL: it is absent from all sanitized texts if and only if it contains the marker or is not `Forgeable` |
| GitOps.RemoteHiddenExactly | src/git_ops.rs:41-45 | For every non-empty stored URL: the remote given to git is absent from all sanitized outputs if and only if it contains the marker, or the URL has no trailing slash and is not `Forgeable` |
| GitOps.MaskShowsShortUrl | src/git_ops.rs:101-107 | The URL `e` is forgeable and redaction itself shows it |
| GitOps.TrailingSlashLeaks | src/git_ops.rs:43-84 | A concrete stored URL whose remote passes through unredacted |
| GitOps.SanitizeKeepsCleanText | src/git_ops.rs:101-107 | Text free of both needles is returned unchanged |
| GitOps.SanitizeIdempotentExactly | src/git_ops.rs:101-107 | Sanitizing twice is sanitizing once, for all texts, if and only if there is no stored URL, or it contains the marker, is not `Forgeable`, or is the mask `[remote]` itself |
| GitOps.ReportNeverShowsMarker | src/git_ops.rs:81-97 | Neither output nor failure message of a finished run contains the marker, across the join with the prefix too |
| GitOps.ReportHidesRemoteExactly | src/git_ops.rs:81-97 | For every non-empty stored URL: no finished run reports the remote if and only if the URL is `Reportable`, a check on the URL alone: the marker is in it, or it has no trailing slash, is not `Forgeable`, and the failure prefix neither contains it nor ends in a beginning of it |
| GitOps.ColonIsReported | src/git_ops.rs:86-91 | The unforgeable URL `:` is in the message of every failed push |
| GitOps.JoinIsReported | src/git_ops.rs:86-91 | The unforgeable URL `failed: x` is spelled by the join of prefix and output |
| GitOps.HttpCapUrlIsNeverReported | src/git_ops.rs:33-98 | End to end for `run_git_op`: with a stored `http…` URL that has no trailing slash and in which every `[` is followed by a character other than `r`, git receives that URL and no finished run reports it or the marker |
| Text.ReplaceSwapsSeparators | src/git_ops.rs:101-107 | `replace` keeps all pieces between the leftmost matches, in order, and swaps only the separators |
| Text.SplitOnceAtPosition | src/http_ctrl.rs:243-248 | The recursive splitter cuts at the leftmost match, or nowhere |
| Text.TrimIsCore | src/http_ctrl.rs:105-111 | Trimming blank, trimmed core, blank yields the core |
| Text.WhitespaceExactly | src/http_ctrl.rs:105-111 | White space is the six ASCII characters |
| Text.EqIgnoreCaseExactly | src/http_ctrl.rs:109 | Equal up to the case of ASCII letters |
| ConstantTime.ConstantTimeEq | src/creds.rs:165-176 | True exactly when lengths agree modulo 256 and zero-padded contents agree; the loop runs max(len) times |
| ConstantTime.XorLowBits | src/creds.rs:166 | The truncated XOR of two lengths is zero exactly when their low bits agree |
| ConstantTime.FalseAcceptExactly | src/creds.rs:165-176 | The unequal pairs it accepts are exactly those that differ by a positive multiple of 256 trailing NULs |
| ConstantTime.FoldedEqualIsEqual | src/creds.rs:165-176 | Equality is decided when lengths differ by less than 256 or the longer input does not end in NUL |
| ConstantTime.SameTokenExactly | src/creds.rs:165-176 | On texts: accepted are exactly the pairs of which one is the other plus a multiple of 256 NULs |
| HttpFrame.FinderAgreesWithSplitter | src/http_ctrl.rs:242-250 | `find_body_boundary` finds an index exactly when `parse_request` splits, and the body starts there, mixed line ends included |
| HttpFrame.CrlfBoundaryIsStable | src/http_ctrl.rs:372-377 | A CRLF boundary keeps its index under every extension of the buffer |
| HttpFrame.LfBoundaryIsStableExactly | src/http_ctrl.rs:372-377 | A bare-LF boundary keeps its index if and only if the extended buffer has no CRLF boundary |
| HttpFrame.ParseRequest | src/http_ctrl.rs:242-270 | The header loop yields the last Authorization value among the lines, with method, path and body |
| HttpFrame.FrameSplits | src/http_ctrl.rs:243-250 | A rendered frame splits at its own blank line even when the body contains blank lines |
| HttpFrame.ParseInvertsRender | src/http_ctrl.rs:242-270 | Parsing a rendered request returns its method, path, body and last trimmed Authorization value |
| HttpFrame.ParseFailsExactly | src/http_ctrl.rs:251-255 | A frame is malformed if and only if the first line of its head has fewer than two words |
| HttpFrame.LaterBytesOnlyExtendBody | src/http_ctrl.rs:242-270 | With a CRLF boundary in the buffer, or a bare-LF one and no CRLF one to come, more bytes change nothing but lengthen the body |
| HttpFrame.LateCrlfExtendsHead | src/http_ctrl.rs:243-250 | A CRLF boundary that shows up behind a bare-LF one turns what lies between into head |
| HttpFrame.ParseHeadContinues | src/http_ctrl.rs:251-270 | Lines added behind a head keep method and path; the authorization changes only to a later header's |
| HttpFrame.BearerTokenOf | src/http_ctrl.rs:104-113 | Any case of the scheme and any surrounding white space give the trimmed token, and none when it is blank |
| HttpFrame.OtherSchemesCarryNoToken | src/http_ctrl.rs:104-113 | Other schemes, and values without a space, give no token |
| HttpConn.ReadRequest | src/http_ctrl.rs:307-343 | On every schedule the loop computes `ReadFrom`, with termination: a buffer, a failed read, or waiting for a silent peer in a read without timer |
| HttpConn.EveryExitIsAccounted | src/http_ctrl.rs:310-343 | The buffer is exactly what was delivered, at most the cap plus 1023 bytes; short of the cap a loop without boundary ends only at end of file |
| HttpConn.StreamIsReadAsPrefix | src/http_ctrl.rs:310-343 | What is read of a text below the cap is a prefix, cut short only by a timer after a boundary; a peer that closes is always answered |
| HttpConn.TimersOnlyShortenTheBody | src/http_ctrl.rs:322-358 | When the whole stream or a CRLF boundary was read, or the stream has no CRLF boundary, the parsed request is that of the whole stream with a shorter body |
| HttpConn.TimerKeepsHeadExactly | src/http_ctrl.rs:322-358 | Schedule by schedule: the head read is that of the whole text if and only if that condition holds |
| HttpConn.TimerSafeExactly | src/http_ctrl.rs:310-358 | For every text below the cap: all answered schedules keep its head if and only if no bare-LF boundary stands in front of its first CRLF boundary |
| HttpConn.RenderedIsSafe | src/http_ctrl.rs:242-250 | Every well-formed request is such a text, whatever its body holds |
| HttpConn.RenderedSurvivesTimers | src/http_ctrl.rs:310-358 | On every answered schedule a well-formed request is parsed with its method, path and last Authorization value, and a prefix of its body |
| HttpConn.SilentPeerAnsweredExactly | src/http_ctrl.rs:312-343 | A peer that sends its text and stays open is answered if and only if a pause or the end falls on the read that follows the first boundary, or on one an even number of reads later |
| HttpConn.TwoPiecesThenSilenceHang | src/http_ctrl.rs:312-343 | Head, then body, then silence without a pause in between: the loop waits for ever |
| HttpConn.TimerHidesOnlyLateAuthorization | src/http_ctrl.rs:322-358 | On every answered schedule method and path are those of the whole text, and so is the authorization unless a later one stands in the missed part of the head |
| HttpConn.ChunkingIndependence | src/http_ctrl.rs:310-358 | Without timeouts any two ways of cutting a stream into reads give the same parsed request |
| HttpConn.TimerAtBareLfChangesHead | src/http_ctrl.rs:322-358 | Schedules on which it is lost: a request line closed by a bare-LF boundary, then a header closed by a CRLF one, the timer fired in between; the loop stops after the first read and the request has no authorization |
| HttpCtrl.HandleAddKey | src/http_ctrl.rs:131-183 | The outcome is the decided one, and the privileged append is called exactly when the decision is to append, with that key |
| HttpCtrl.FrameAuthorizedExactly | src/http_ctrl.rs:104-152 | From frame text: a well-formed frame is authorized if and only if the held cap accepts its trimmed token, that is, the token is not blank and equals the cap up to a multiple of 256 NULs at the end of one of them; plain equality under the length or NUL condition |
| HttpCtrl.SentFrameAuthorizedExactly | src/http_ctrl.rs:131-358 | The same behind the read loop, on every answered schedule, timers included; method and path are those sent, and only the body may be cut |
| HttpCtrl.AddKeyFrameIs401Exactly | src/http_ctrl.rs:131-152 | An add-key POST frame gets 401 if and only if the held cap does not accept its trimmed token in that sense |
| HttpCtrl.NoCapNoAppend | src/http_ctrl.rs:144-151 | Without a held cap nothing reaches the append, and an add-key POST gets 401 |
| HttpCtrl.HandleScrub | src/http_ctrl.rs:226-237 | A scrub POST empties the cell and removes the removable credential files; any other request changes nothing |
| HttpCtrl.ResponseReadsBack | src/http_ctrl.rs:359-365 | A client reading the response recovers status line, headers, content length and body, whatever the body contains |
| HttpCtrl.ReasonIsStandard | src/http_ctrl.rs:380-389 | The reason phrases of the statuses in use |
| HttpCtrl.DecimalIsInverted | src/http_ctrl.rs:359-365 | Printed numbers read back as themselves |
| CapsDir.CapFiles.RemoveCredFiles | src/http_ctrl.rs:198-217 | Exactly the removable credential files go, and the returned count is their number |
| CapsDir.CompleteRemovalLeavesNothing | src/http_ctrl.rs:198-217 | When removals work no credential file is left, other files stay, and a second removal finds nothing |
| CapsDir.CapNeedsCredFile | src/http_ctrl.rs:63-68 | Without credential files there is no authorized-keys cap |
| Creds.CredCell.Load | src/creds.rs:50-87 | The loaded credentials are a function of the files and the set of names scanned, not of the scan order |
| Creds.CredCell.Scrub | src/creds.rs:124-157 | Nothing is held afterwards |
| Creds.CredCell.CapNames | src/creds.rs:110-117 | The list is strictly sorted and holds exactly the capability names |
| Creds.SortedListIsUnique | src/creds.rs:110-117 | Sortedness and contents determine the list, so hash order cannot show |
| Creds.LessExactly | src/creds.rs:110-117 | The order of the list is lexicographic |
| Creds.LoadedNamesExactly | src/creds.rs:50-117 | After a load the names are `git:<repo>` for each scanned non-blank `<repo>.url`, and `forge` for a non-blank admin file |
| Creds.NamesRevealNoValues | src/creds.rs:108-117 | Directories with the same non-blank file names, scanned alike as far as those go, give the same list, whatever the contents and whatever blank files there are |
| Creds.LoadNeedsCredFiles | src/creds.rs:50-87 | A load without credential files yields nothing |
| Creds.LoadedUrlsAreTrimmed | src/creds.rs:58-61 | Every held cap-URL is the trimmed, non-empty content of its file |
| Lifecycle.CustodyAlways | src/dispatch.rs:51-121 | On every interleaving the cell and every clone hold what the last start loaded, or nothing |
| Lifecycle.CustodyFromStart | src/main.rs:38-49 | So on every run from a start; without a restart that is what this start loaded |
| Lifecycle.ScrubIsFinal | src/dispatch.rs:58-90 | From a cleared cell no later operation obtains a credential before a restart; only unfinished earlier clones keep theirs |
| Lifecycle.AnyScrubIsFinal | src/dispatch.rs:87-90 | So after every scrub, over the socket or over HTTP, wherever it falls in a run |
| Lifecycle.DrainedHoldsNothing | src/dispatch.rs:58-121 | Once the operations in flight at the scrub have ended, no copy remains |
| Lifecycle.OpAfterScrubUsesOrigin | src/git_ops.rs:41-45 | An operation begun after a scrub gives git `origin` |
| Lifecycle.ForgeOpAfterScrubNeedsCredential | src/dispatch.rs:29-115 | A forge operation begun after a scrub is refused with `needs_credential`, provisioning included |
| Lifecycle.AnsweredScrubLeavesNothing | src/http_ctrl.rs:226-237 | When a scrub request is answered, its listing complete and its removals working, memory and disk hold nothing, whatever interleaved |
| Lifecycle.ScrubbedStays | src/main.rs:36-49 | Until the supervisor writes a credential file, across restarts, this stays so, and HTTP no longer changes the key file |
| Lifecycle.ScrubbedForGood | src/http_ctrl.rs:219-237 | The two combined over one run |
| Lifecycle.ScrubbedObservations | src/http_ctrl.rs:344-358 | A scrubbed broker lists no names, has no cap-URL, answers every add-key POST with 401 and restarts empty |
| Lifecycle.GuessesNeverAddKeys | src/http_ctrl.rs:7-16 | On every interleaving, cap rotations and restarts included, frames without a matching token never change the key file |
| Lifecycle.BegunOpHoldsCell | src/dispatch.rs:58-65 | Without restart and scrub the cell keeps what it holds, and every operation begun in such a run and not ended holds exactly that |
| Lifecycle.StoredUrlIsServed | src/dispatch.rs:58-65 | The trimmed content of a scanned `<repo>.url`, less trailing slashes, is the remote git gets for every operation on that repo begun in such a run from the start |
| Lifecycle.WrittenUrlIsServed | src/main.rs:36-49 | So is a cap-URL the supervisor writes during a run and that stays in place until the next restart |
| Lifecycle.AdminFileIsServed | src/dispatch.rs:29-80 | An admin file with an owner blob gives the forge operations that owner and provisioning its admin token; any other text serves as admin token alone |
| Lifecycle.NoAdminFileIsRefused | src/creds.rs:70-75 | With a blank or missing admin file both are refused with `needs_credential` |
| Lifecycle.SocketKeyIsAdded | src/dispatch.rs:82-85 | A valid key sent over the socket is in the key file from then on, whatever else happens |
| Lifecycle.KeysOnlyGrow | src/authorized_keys.rs:21-52 | On every interleaving no key is lost and only key lines are added |
| Lifecycle.AuthorizedKeyIsAppended | src/http_ctrl.rs:131-183 | From frame text to key file: a POST with a token the cap file accepts, and a key named in its body, makes the append run with that key; 200 and the key in the file on success, 400 or 500 with the append's message otherwise |
| Lifecycle.AuthorizedKeyReachesFile | src/http_ctrl.rs:144-171 | On every interleaving: once such a request is decided on, the key is in the file after its append and stays there |
| Lifecycle.BodyWithoutKeyIs400 | src/http_ctrl.rs:157-168 | With an accepted token, bad JSON or a missing, empty or non-string key gives 400 and changes nothing |
| Lifecycle.OtherTokensAre401 | src/http_ctrl.rs:143-152 | A token the cap file does not accept, or no cap at all, gives 401 and changes nothing |
| Lifecycle.AnonymousIs401 | src/http_ctrl.rs:143-152 | So does a request without Authorization header |
| Lifecycle.OtherRoutes | src/http_ctrl.rs:344-358 | 404 for other paths, 405 for other methods, 200 for a scrub POST; only the last changes anything |
| Lifecycle.MalformedIs400 | src/http_ctrl.rs:346-358 | A frame without method and path gives 400 and changes nothing |
| Lifecycle.ScrubIsRun | src/http_ctrl.rs:226-237 | Clearing the cell and removing the files of any listing, whichever removals fail, is a run of the transition system: frame, listing, the unlinks in the source's order, reply |
| Lifecycle.RequestIsRun | src/http_ctrl.rs:351-358 | So is any other request, its append included |
| Lifecycle.HandleFrame | src/http_ctrl.rs:344-358 | Routing one request refines the transition system: from every state it ends, in cell, files and key file, where the undisturbed steps of its connection lead, with the decided outcome |
| Lifecycle.HandleConn | src/http_ctrl.rs:302-369 | Read, route and print refine it likewise, for the request that was read; a read that is aborted or never ends takes no step and is not answered |
| AuthorizedKeys.KeyFile.AddSshKeyTo | src/authorized_keys.rs:21-52 | Result and new content in every case: invalid key, key already there, append, failing append; an unreadable file counts as empty in the scan and is appended to |
| AuthorizedKeys.AddAnswersExactly | src/authorized_keys.rs:22-34 | Accepted are exactly the texts that trim to a single line with one of the five known beginnings; all others are `Invalid` |
| AuthorizedKeys.RunAddsKeyLinesExactly | src/authorized_keys.rs:21-52 | A run adds such lines only, and a text the file did not hold is in it afterwards if and only if it is such a line and some request trims to it |
| AuthorizedKeys.AppendIsALineExactly | src/authorized_keys.rs:44-50 | The appended key is a line of its own if and only if the file was empty or newline-terminated |
| AuthorizedKeys.FileIsInitialPlusAccepted | src/authorized_keys.rs:21-52 | After any sequence of calls the file is its initial content plus the accepted keys, one per line in order, still newline-terminated |
| AuthorizedKeys.RunKeepsFileSound | src/authorized_keys.rs:35-52 | No run introduces a duplicate, and every valid key requested is in the file |
| AuthorizedKeys.RepeatedAddChangesNothingExactly | src/authorized_keys.rs:36-39 | Repeating a call leaves the file byte-identical if and only if the key was invalid, already there, or only white space stood on the unfinished last line; always on a newline-terminated file |
| GitSession.GitSessions.Register | src/forge/git_session.rs:47-49 | Appends a registration to the history the table refines |
| GitSession.GitSessions.Revoke | src/forge/git_session.rs:64-66 | Appends a revocation |
| GitSession.GitSessions.Lookup | src/forge/git_session.rs:54-61 | Answers as the history does |
| GitSession.ResolvesExactly | src/forge/git_session.rs:54-61 | A cap resolves to a pair if and only if its last event registered that pair with an expiry not yet past |
| GitSession.AbsentUntilRegistered | src/forge/git_session.rs:54-66 | Expired, revoked and unknown caps stay absent until registered again |
| GitSession.CapsAreIndependent | src/forge/git_session.rs:47-66 | What a cap resolves to depends on its own events only |
| ForgeClient.ForgeServer.EnsureScopedToken | src/forge/client.rs:138-173 | List, delete and mint have the effect of `Ensure` on the token store |
| ForgeClient.EnsureExactly | src/forge/client.rs:138-173 | When the call succeeds (an empty secret is a failure), what it leaves under its name, and that no outcome touches other names |
| ForgeClient.MintingDoesNotAccumulate | src/forge/client.rs:135-173 | After any run of successful calls each requested name holds one token, the last returned; other names are as before |
| ForgeClient.OtherNamesUntouched | src/forge/client.rs:138-173 | Over any run, failures included, names not asked for keep their tokens |
| PushCaps.SameTenantExactly | src/forge/handler.rs:43-52 | Accepted are exactly the bare names and, for an org without slash, the names under it |
| PushCaps.TokenNamesAreDistinct | src/forge/handler.rs:121-124 | Different repos of an org have different token names |
| PushCaps.RegisterForgePushCap | src/forge/handler.rs:114-136 | The call computes `RegisterPushCap` on token store and history: success appends one registration of the minted secret; every error leaves all sessions unchanged |
| PushCaps.RegistrationSucceedsExactly | src/forge/handler.rs:120-135 | A call for an own repo succeeds if and only if the list is reachable, the mint gives a secret, and a token that is there is listed and gets deleted; it then returns its cap and leaves its secret live |
| PushCaps.PushCapLivesForTtl | src/forge/handler.rs:127-134 | The cap resolves to URL and secret up to and including 3600 seconds and not after, while no event touches it |
| PushCaps.SessionIsLiveExactly | src/forge/handler.rs:120-135 | After any run of registrations, failed and cross-tenant ones included, a successful one's cap resolves to its URL and secret until it expires, and the forge honours that secret if and only if no later call for the same repo found its token listed and got it deleted |
| PushCaps.FailedCallKillsTokenExactly | src/forge/client.rs:146-172 | A failing call changes no session, and kills the live token of its repo if and only if the delete worked and the mint gave no secret |
| PushCaps.DeclinedMintKillsToken | src/forge/client.rs:146-172 | A concrete call after which a session resolves to a dead secret |
| PushCaps.NewestSessionAloneIsLive | src/forge/handler.rs:120-135 | When the calls succeed, that is if and only if it is the newest for its repo, however the calls spell the repo |
| Contents.DecodeInvertsEncode | src/forge/contents.rs:67-89 | Decoding inverts encoding for every byte sequence |
| Contents.EncodeInvertsDecode | src/forge/contents.rs:67-71 | Only canonical encodings decode |
| Contents.EncodeIsBase64 | src/forge/contents.rs:88 | Group by group the text is the 24-bit number of three bytes in the standard alphabet, a last short group padded with `=` |
| Contents.Utf8Exactly | src/forge/contents.rs:70 | Accepted as text are exactly the UTF-8 encodings of sequences of Unicode scalar values |
| Contents.StripUndoesInsert | src/forge/contents.rs:68 | Stripping undoes any insertion of white space |
| Contents.GetReturnsWhatWasPut | src/forge/contents.rs:53-89 | `get_file` returns what `put_file` stored, whatever white space the server inserts; a stored file that is not UTF-8 is an error |
| Contents.GetReportsOnlyWhatIsStored | src/forge/contents.rs:54-71 | A reported file is the one its reply encodes, and is UTF-8 |
| Contents.GotFileExactly | src/forge/contents.rs:54-71 | A file is reported if and only if the reply is a success, says base64, and its text less white space encodes that file, being UTF-8 |
| Contents.MissingExactly | src/forge/contents.rs:54-57 | A file is missing if and only if the reply is a 404 |

## Left out

- Lossy UTF-8 decoding of the request buffer and non-ASCII white space: text is its bytes here.
- Creds.CredCell.Load: file names are text; two names that are not UTF-8 could become one repo after the lossy conversion of `src/creds.rs:54`, and then the scan order would decide.
- Sockets, tasks, tracing, file modes and process start-up.
- Git itself and `head_sha`: any output, exit status and sha.
- The text of a failed git start, which is not sanitized by the code either.
- The byte overwriting inside `scrub`: only the logical clearing is modelled.
- Timing of the comparison: its value and its number of iterations are.
- Interleaving inside one key append: an append is one step, and a failed one writes nothing.
- Forge calls other than token minting and file contents: they only map requests and fields.
- A forge that holds several tokens of one name; names are taken as unique.
- GitSession.GitSessions.Register: the mutex is not modelled, each call is one step.
- PushCaps.SessionIsLiveExactly: assumes that the secret and the generated cap-key of the call are not repeated by another one, and says nothing about revocations in between (`PushCapLivesForTtl` and `ResolvesExactly` do).
- Creds.CredCell.CapNames: the library sort is an insertion sort here; the contract does not depend on it.
- Lifecycle.AnsweredScrubLeavesNothing: the listing is one step, and unlinking may happen in any order.
- HttpConn.ReadRequest: the timer is a flag per read, not a duration.
- Lifecycle.HandleFrame: the append itself is a parameter here, tied to the key file by its result alone; `KeyFile.AddSshKeyTo` models it.
