# Verification model of the Oxo edge, hop codec and worker

This project models the parts of Oxo whose correctness does not show in any one function: the edge's
idle-connection pool, the binary frame protocol between edge and workers, the admission limiters, certificate
renewal and reload, header sanitizing, process supervision, and the async Ruby worker's connection
and drain protocol. Each part is a Dafny model with the source's own branches, error cases and constants, and the
properties the design relies on, proved for every input, every run or every interleaving.

`dafny verify dfyconfig.toml` checks the whole project.

| file | part |
|---|---|
| `Common.dfy` | `Option`, `Result`, `Min`, `Max`, folds over labels |
| `FramePool.dfy` | idle-connection pool: reference list, the three indexes, refinement |
| `HopFrame.dfy`, `HopFrameTheorems.dfy`, `HopFrameCodec.dfy` | frame codec: functions on bytes, theorems, cursor and buffer |
| `FrameText.dfy`, `FrameRefusals.dfy` | the codec's strings as Unicode text; the decoders' answer to every encoding |
| `RubyCodec.dfy` | the worker's own codec and its agreement with the edge's |
| `CasLimiter.dfy`, `Admission.dfy` | lock-free limiters, per-identity limiter, the admission pipeline |
| `AcmeBackoff.dfy`, `AcmeState.dfy`, `Renewal.dfy` | renewal backoff, certificate state directory, renewal calls |
| `CertReload.dfy`, `CertService.dfy` | the supervisor's reload, and the service as a state machine with what outlives it |
| `HeaderText.dfy`, `HeaderSanitizer.dfy` | text operations and their laws; owned and bitmask request-header sanitizers |
| `CrashWindow.dfy`, `BatchedBoot.dfy` | respawn throttling, concurrent worker boot |
| `AsyncWorker.dfy`, `SampleRing.dfy` | connection fibers and drain, sample rings |

How the model is shaped:

- Code that changes state step by step is a class or a method proved against a specification function (pool, cursor,
  buffers, limiter map, state directory, supervisor, ring, boot loop, sanitizer loops). Concurrent code (limiters,
  admission, service with its renewal child, connection fibers with the drain) is a state machine whose
  runs are arbitrary sequences of labels; a label that does not apply leaves the state alone.
- Strings are byte sequences with a UTF-8 test in the codec, shown to accept exactly the encodings of scalar values, and
  character sequences elsewhere. Widths are explicit where they matter: 16- and 32-bit lengths, 64-bit saturation in the
  backoff, 64-bit words in the bitmask, truncating `pack` in Ruby.
- Clocks, process exits, socket reads, issuer answers, pair validity, X.509 parsing and whether an edge boots on a pair
  are parameters.

Where code and documentation disagree, the model follows the code:

- `FRAME_FIXED_SLACK` is documented as a bound that never rejects a legal frame. It can: path and query are uncapped and
  every header costs six bytes. `PrecheckExact` gives the exact condition and `PrecheckCanRejectLegalFrame` an instance.
- The Ruby sanitizer lets a tab through in header values; the edge refuses it. `EdgeAcceptsWorkerResponse` gives the exact
  condition, `TabIsRefused` the error and `TabSurvivesTheWorker` an instance.
- A drain that gives up on a connection while that connection's fiber is suspended inside its own error frame puts a second
  error frame on the socket, because the registry still says the application is running. `FramesAreOrderlyExactly` shows
  this is the only way to get two frames for one request, and `ErrorFrameCanDouble` builds the run.
- Rollback takes the retained pair with the largest time stamp. After a clock step backwards that is not the pair just
  retained; `ClockMustNotRunBack` gives the exact condition.
- A renewal stopped between its two renames can be hidden from the status, when the metadata names no schedule or a key
  without a certificate was there before. `StoppedRenewalStaysDue` gives the exact condition, `StoppedRenewalCanHide` an
  instance.
- The pair writer is documented as never leaving a new certificate beside the old key after a crash. It can, between its two
  renames. A supervisor that is alive repairs that, but rollback is reached only from a restart: if the service dies too, no
  later boot succeeds until somebody issues by hand (`DeathBetweenRenames`, `MismatchStaysDown`).
- A marker found at boot is taken as satisfied by the fresh edge. A renewal child runs in its own process group and outlives
  a crashed service, so it may still be about to rename; then the edge stays on the old pair with no marker left
  (`OrphanGoesUnnoticed`). The same holds of a manual issuance that overlaps a restart. An edge outlives its service too, and
  readiness is a connection to the address it still holds: the next boot takes it for its own and consumes the marker while
  the old pair is served on (`StrayGoesUnnoticed`). `EdgeRunsWhatIsOnDisk` with `ConsumedBeforeRenames` and
  `ConsumedOverRenames` gives the exact condition.
- The latch is documented as three rejected certificates in a row. The count is over failures of every kind and only the
  last one must be a rejected certificate (`LatchesExactly`, with the instance `MixedFailuresLatch`).
- Respawns are documented as throttled in any crash loop. They are exactly when the configured cap is positive and either the
  minimum uptime is positive or the limit at most one (`ThrottlesExactly`); `ZeroUptimeNeverThrottles` and
  `ZeroCapNeverThrottles` are the two failing families.
- A stale close is documented as never touching a newer entry because ids are monotonic. They are 32-bit and wrap;
  `StaleCloseIsHarmless` is the property for distinct ids, `StaleCloseHitsNewer` the run with an id used again.
- The pool's preconditions (no pooled id is put again, an id is closed under its own key) are guarded by debug assertions
  only. `Put` and `PopClosed` state that the indexes stay in agreement exactly when the caller respects them.

## Model

| member | source | states |
|---|---|---|
| FramePool.ConnectionPool.constructor | crates/oxo-pingora-edge/src/platform/frame_pool.rs:103-116 | an empty pool with a ceiling of at least one |
| FramePool.ConnectionPool.Get | crates/oxo-pingora-edge/src/platform/frame_pool.rs:135-150 | on the three indexes, exactly the reference list's removal of the key's first entry, with one pickup sent; `FramePoolSpec.GetAnswersOldest` and `FramePool.Replay` say which connection that is |
| FramePool.ConnectionPool.Put | crates/oxo-pingora-edge/src/platform/frame_pool.rs:155-196 | appends and drops the head over the ceiling as the reference list does, if the id is not pooled; otherwise no list can explain the indexes any more |
| FramePool.ConnectionPool.PopClosed | crates/oxo-pingora-edge/src/platform/frame_pool.rs:201-216 | removes exactly that id or nothing, if the key is the one it was put under; otherwise no list can explain the indexes any more |
| FramePool.Replay | crates/oxo-pingora-edge/src/platform/frame_pool.rs:135-216 | any run of calls that respects the two preconditions leaves three indexes that agree, and the list they describe is the reference list after the same run; every checkout on the way answered the connection of the oldest put under its key that nothing had happened to, and nothing exactly when there was none |
| FramePool.ReplayConserves | crates/oxo-pingora-edge/src/platform/frame_pool.rs:135-216 | after any such run the indexes hold at most the ceiling, every put has had exactly one fate, evictions needed `size` later puts and the high water mark is the peak |
| FramePool.LegalPut | crates/oxo-pingora-edge/src/platform/frame_pool.rs:167-168 | a put respects its precondition on the list if and only if the id is not in the id index |
| FramePool.LegalPopClosed | crates/oxo-pingora-edge/src/platform/frame_pool.rs:204-211 | a close respects its precondition on the list if and only if the indexes know the id under that key or not at all |
| FramePool.EvictOldest | crates/oxo-pingora-edge/src/platform/frame_pool.rs:56-65 | takes the smallest insertion number out of all three indexes, or answers nothing when there is none |
| FramePool.DoubledNeverAgrees | crates/oxo-pingora-edge/src/platform/frame_pool.rs:167-168 | an id pooled twice leaves indexes that mirror no list |
| FramePool.WrongKeyNeverAgrees | crates/oxo-pingora-edge/src/platform/frame_pool.rs:204-211 | closing under a foreign key leaves indexes that mirror no list |
| FramePoolSpec.RunInv | crates/oxo-pingora-edge/src/platform/frame_pool.rs:67-88 | after every run the reference list, which `FramePool.Replay` shows the indexes to be, is in insertion order, within the ceiling, and every put so far has a fate |
| FramePoolSpec.GetAnswersOldest | crates/oxo-pingora-edge/src/platform/frame_pool.rs:135-150 | after every run a checkout answers the connection argument of the earliest put under its key that has had no fate yet, and nothing exactly when there is no such put |
| FramePoolSpec.GetPicksUp | crates/oxo-pingora-edge/src/platform/frame_pool.rs:135-150 | that put has then been picked up, and no other put's fate changes |
| FramePoolSpec.PutsAreConserved | crates/oxo-pingora-edge/src/platform/frame_pool.rs:135-216 | every put of a run has exactly one fate (idle, picked up with one send, evicted with one close notice and an unsent sender, closed) and the puts are the sum of the fates; carried to the indexes by `FramePool.ReplayConserves` |
| FramePoolSpec.EvictionNeedsLaterPuts | crates/oxo-pingora-edge/src/platform/frame_pool.rs:178-186 | an entry is evicted only after at least `size` later puts; carried to the indexes by `FramePool.ReplayConserves` |
| FramePoolSpec.HighWaterIsPeak | crates/oxo-pingora-edge/src/platform/frame_pool.rs:178-181 | the high water mark is the run's peak offered count, at most one over the ceiling; carried to the indexes by `FramePool.ReplayConserves` |
| FramePoolSpec.LegalRunKeepsIdsDistinct | crates/oxo-pingora-edge/src/platform/frame_pool.rs:198-201 | when callers respect the contract an id names at most one idle connection; `FramePool.LegalPut` relates that contract to the id index |
| FramePoolSpec.StaleCloseIsHarmless | crates/oxo-pingora-edge/src/platform/frame_pool.rs:198-216 | in every run whose put ids are distinct, closing the meta of a put removes that put or nothing, however late |
| FramePoolSpec.StaleCloseHitsNewer | crates/oxo-pingora-edge/src/platform/frame_pool.rs:198-216 | with an id used again under the same key, the late close of the first put removes the second |
| FramePoolSpec.HonestRunsAreLegal | crates/oxo-pingora-edge/src/platform/frame_pool.rs:167-168 | calls that put new ids and close an id under its own key respect both preconditions throughout, for any ceiling |
| HopFrameTheorems.RequestRoundTrip | crates/oxo-core/src/hop_frame.rs:363-375 | a request decodes back from its encoding if and only if it is legal under the caps |
| HopFrameTheorems.DecodedRequestReencodes | crates/oxo-core/src/hop_frame.rs:446-483 | an envelope decodes to a request if and only if that request is legal and the envelope is its encoding; up to 32-bit length it re-encodes to the same frame |
| HopFrameTheorems.ResponseRoundTrip | crates/oxo-core/src/hop_frame.rs:488-521 | a response decodes back from its encoding if and only if it is legal under the caps |
| HopFrameTheorems.DecodedResponseReencodes | crates/oxo-core/src/hop_frame.rs:526-573 | an envelope decodes to a response if and only if that response is legal and the envelope is its encoding; up to 32-bit length it re-encodes to the same frame |
| HopFrameTheorems.StrictPrefixOfRequest | crates/oxo-core/src/hop_frame.rs:446-471 | every strict prefix of an accepted request envelope is refused as truncated |
| HopFrameTheorems.StrictExtensionOfRequest | crates/oxo-core/src/hop_frame.rs:465-471 | every strict extension of an accepted request envelope fails the tiling check, with the numbers it reports |
| HopFrameTheorems.StrictPrefixOfResponse | crates/oxo-core/src/hop_frame.rs:526-573 | every strict prefix of an accepted response envelope is refused as truncated |
| HopFrameTheorems.StrictExtensionOfResponse | crates/oxo-core/src/hop_frame.rs:566-571 | every strict extension of an accepted response envelope fails the tiling check |
| HopFrameTheorems.EnvelopeLength | crates/oxo-core/src/hop_frame.rs:363-375 | 23 bytes, six for each header, the uncapped fields, the header bytes and the body |
| HopFrameTheorems.FrameLayout | crates/oxo-core/src/hop_frame.rs:342-358 | a frame is the magic byte, the version, the length of the envelope low byte first, and the envelope |
| FrameText.Utf8Exactly | crates/oxo-core/src/hop_frame.rs:230-244 | the byte test accepts a string if and only if it is the encoding of some sequence of Unicode scalar values, with the encoding given on its own |
| FrameText.ControlExactly | crates/oxo-core/src/hop_frame.rs:252-257 | the bytes of a text hold a control byte if and only if the text holds one of the characters below U+0020 or U+007F |
| FrameText.ShortIsText | crates/oxo-core/src/hop_frame.rs:230-236 | a short string is read exactly where a 16-bit length and the encoding of a text lie |
| FrameText.LongIsText | crates/oxo-core/src/hop_frame.rs:238-244 | a long string is read exactly where a 32-bit length and the encoding of a text lie |
| FrameText.NotTextIsRefused | crates/oxo-core/src/hop_frame.rs:230-244 | behind a right length the UTF-8 error is given exactly for bytes that are no text |
| FrameText.ControlCharacterIsRefused | crates/oxo-core/src/hop_frame.rs:252-257 | a header of any two texts is read back, or refused with the control-byte error exactly when one of them holds a control character |
| FrameText.AcceptedRequestsAreText | crates/oxo-core/src/hop_frame.rs:446-483 | the request decoder accepts exactly the encodings of requests whose strings are texts, without control characters in headers, within the caps |
| FrameText.AcceptedResponsesAreText | crates/oxo-core/src/hop_frame.rs:526-573 | the same for responses, with a status from 100 to 599 |
| FrameRefusals.RequestAnswer | crates/oxo-core/src/hop_frame.rs:446-483 | whatever request is encoded, the decoder gives it back or reports what is wrong first: text of the line, header count, the first header by text, control character or summed bytes, body size, each with its numbers |
| FrameRefusals.ResponseAnswer | crates/oxo-core/src/hop_frame.rs:526-573 | the same for responses: status, header count, the first bad header, body or chunk size |
| HopFrameTheorems.PrecheckExact | crates/oxo-core/src/hop_frame.rs:19-23 | a frame passes the size pre-check if and only if its length fits slack plus caps; for a legal one, 23 + 6 per header + uncapped fields within 4096 is enough |
| HopFrameTheorems.PrecheckCanRejectLegalFrame | crates/oxo-core/src/hop_frame.rs:177-194 | under any caps, a legal request whose path is one byte too long is refused by the pre-check, as long as its length fits 32 bits |
| HopFrameTheorems.StreamSplitsBack | crates/oxo-core/src/hop_frame.rs:164-194 | any concatenation of frames, read by prefix and exact length, splits into the same envelopes |
| HopFrameTheorems.RequestsSurviveTheStream | crates/oxo-core/src/hop_frame.rs:164-194 | any concatenation of request frames decodes to the requests sent, in order |
| HopFrameTheorems.ResponsesSurviveTheStream | crates/oxo-core/src/hop_frame.rs:164-194 | any concatenation of response frames decodes to the responses sent, in order |
| HopFrameCodec.Cursor.Take | crates/oxo-core/src/hop_frame.rs:210-217 | advances over exactly the bytes it returns, or is truncated |
| HopFrameCodec.Cursor.ShortStr | crates/oxo-core/src/hop_frame.rs:230-236 | reads a 16-bit length and valid UTF-8 of that length, as the parser does; `FrameText.ShortIsText` says which bytes those are |
| HopFrameCodec.Cursor.LongStr | crates/oxo-core/src/hop_frame.rs:238-244 | reads a 32-bit length and valid UTF-8 of that length, as the parser does; `FrameText.LongIsText` says which bytes those are |
| HopFrameCodec.Cursor.DecodeHeaders | crates/oxo-core/src/hop_frame.rs:293-332 | the counted loop with its running 32-bit byte sum is the header-block parser, errors included |
| HopFrameCodec.DecodeRequestEnvelope | crates/oxo-core/src/hop_frame.rs:446-483 | the cursor run gives the specified decoding, errors included; it accepts exactly the encodings of requests of texts within the caps |
| HopFrameCodec.DecodeResponseEnvelope | crates/oxo-core/src/hop_frame.rs:526-573 | the cursor run gives the specified decoding, errors included; it accepts exactly the encodings of responses of texts within the caps |
| HopFrameCodec.FrameBuffer.Block | crates/oxo-core/src/hop_frame.rs:424-434 | appends the header block; refused when the announced count is not the number emitted or a length does not fit |
| HopFrameCodec.FrameBuffer.Finish | crates/oxo-core/src/hop_frame.rs:353-358 | backfilling the hole gives prefix and envelope; refused when the length does not fit 32 bits |
| HopFrameCodec.FrameBuffer.EncodeRequestRefInto | crates/oxo-core/src/hop_frame.rs:406-442 | whatever the buffer held, it ends byte-equal to the encoding of the same fields; any count mismatch or overflow is refused |
| HopFrameCodec.FrameBuffer.EncodeResponseInto | crates/oxo-core/src/hop_frame.rs:488-521 | the in-place encoding is the specified one; any overflow is refused |
| RubyCodec.DecodeRequestEnvelope | ruby/oxo_async_worker.rb:226-247 | the worker's cursor run gives the specified decoding, errors included |
| RubyCodec.WorkerAccepts | ruby/oxo_async_worker.rb:226-247 | the worker decodes a request exactly from the envelopes that begin with its encoding, within the worker's caps |
| RubyCodec.DecodersAgree | ruby/oxo_async_worker.rb:226-247 | on every envelope the edge accepts the worker reads the same request, or reports the cap of its own that is exceeded |
| RubyCodec.OutBuffer.EncodeFullResponse | ruby/oxo_async_worker.rb:255-269 | whatever the buffer held, it ends as the packed frame, truncated lengths included |
| RubyCodec.EncodersAgree | ruby/oxo_async_worker.rb:255-269 | wherever the edge could encode the response, the worker writes the very same bytes |
| RubyCodec.SanitizedExactly | ruby/oxo_async_worker.rb:179-199 | a response header is kept if and only if its name is visible ASCII and no framing name in any case, and its value holds no control byte but the tab; sanitizing twice changes nothing |
| RubyCodec.KeptHeader | ruby/oxo_async_worker.rb:179-199 | a header the worker lets through is legal at the edge if and only if its value is UTF-8 without a tab |
| RubyCodec.EdgeAcceptsWorkerResponse | ruby/oxo_async_worker.rb:179-269 | read from the worker's bytes by prefix, size pre-check and decode, a sanitized response comes back if and only if status, caps, total length and header values meet the edge's demands |
| RubyCodec.TabIsRefused | crates/oxo-core/src/hop_frame.rs:252-257 | a response the worker thought clean is refused with the control-byte error for one tab in its first header |
| RubyCodec.TabSurvivesTheWorker | ruby/oxo_async_worker.rb:179-199 | such a header passes the worker: a value that is one tab is kept |
| CasLimiter.RunInv | crates/oxo-pingora-edge/src/platform/fairness.rs:87-135 | under every interleaving `active` is the number of live guards, at most the cap, and each total counts its tasks; `CasLimiter.AloneIsDecided` is the converse, that calls below the cap are admitted |
| CasLimiter.QuiescentTotals | crates/oxo-pingora-edge/src/platform/fairness.rs:278-363 | with no call under way the recorded maximum is the true one and accepted = active + completed + cancelled |
| CasLimiter.PeakIsMaximum | crates/oxo-pingora-edge/src/platform/fairness.rs:122-135 | the peak used above bounds `active` at every instant and is attained |
| CasLimiter.RefusalNeedsFullCap | crates/oxo-pingora-edge/src/platform/fairness.rs:87-109 | a call is refused only if at some instant inside it every slot was held |
| CasLimiter.AloneIsDecided | crates/oxo-pingora-edge/src/platform/fairness.rs:87-135 | from every reachable state a new call that runs alone is decided in six steps: below the cap it holds a guard with active and accepted up by one and the maximum raised, at the cap it is refused and counted |
| CasLimiter.AloneReturns | crates/oxo-pingora-edge/src/platform/fairness.rs:87-135 | wherever its call stands and whatever others did to it, a task that runs alone returns within six steps |
| CasLimiter.DropIsCounted | crates/oxo-pingora-edge/src/platform/fairness.rs:278-291 | a dropped guard gives its slot back and is counted as completed or cancelled, with nothing else changed |
| CasLimiter.CompletedIsCounted | crates/oxo-pingora-edge/src/platform/fairness.rs:375-377 | a guard completed before it is dropped counts as completed |
| CasLimiter.DropReleases | crates/oxo-pingora-edge/src/platform/fairness.rs:70-74 | a drop never wraps the count and releases exactly one slot |
| IdentityFairness.IdentityFairnessLimiter.Acquire | crates/oxo-pingora-edge/src/platform/fairness.rs:185-216 | given out exactly below the cap, refused without change at it, no guard when unconfigured |
| IdentityFairness.IdentityFairnessLimiter.DropGuard | crates/oxo-pingora-edge/src/platform/fairness.rs:29-44 | one guard fewer; the last one removes the entry |
| Admission.RunInv | crates/oxo-pingora-edge/src/platform/proxy.rs:553-618 | under every interleaving all three limiters count exactly the guards alive within their caps, and the identity map has an entry exactly for identities with live guards |
| Admission.HoldsAllOrNothing | crates/oxo-pingora-edge/src/platform/proxy.rs:553-618 | a returned request holds nothing, a served one exactly the configured guards |
| Admission.AdmitAllOrNothing | crates/oxo-pingora-edge/src/platform/proxy.rs:553-618 | one call turned away at any stage leaves every count and the map as before; admitted it raises each configured one by exactly one |
| Admission.AloneIsServedExactly | crates/oxo-pingora-edge/src/platform/proxy.rs:553-618 | from every reachable state a request that runs alone is served if and only if every limiter in its way has room, with each configured one up by one, and is turned away otherwise; after it has left every count is back |
| Admission.CountsAtRest | crates/oxo-pingora-edge/src/platform/fairness.rs:218-232 | with nobody between stages the counts are the requests being served |
| AcmeState.CrashPoints | crates/oxo-pingora-edge/src/acme/state.rs:107-169 | wherever issuance stops: changed material has its marker, new metadata the whole new pair, and a mixed pair only between the renames with everything old retained |
| AcmeState.StoppedRenewalStaysDue | crates/oxo-pingora-edge/src/acme/state.rs:214-282 | a due renewal stopped anywhere is complete with its marker or still due later, when metadata describes the pair; otherwise exactly when the half-installed pair hides it |
| AcmeState.StoppedRenewalCanHide | crates/oxo-pingora-edge/src/acme/state.rs:214-282 | without metadata, a renewal stopped between its renames leaves a mismatched pair that is not reported as due |
| AcmeState.RollbackUndoesIssuance | crates/oxo-pingora-edge/src/acme/state.rs:513-585 | rolling back right after an issuance restores pair and metadata and leaves the marker |
| AcmeState.StateDir.Persist | crates/oxo-pingora-edge/src/acme/state.rs:107-169 | performs the scripted operations in order up to the first that reports an error, or none when the expiry cannot be read |
| AcmeState.StateDir.RetainExisting | crates/oxo-pingora-edge/src/acme/state.rs:171-212 | on success the material from before is complete under `retained`; no live file changes in any case |
| AcmeState.StateDir.WriteCertKeyPair | crates/oxo-pingora-edge/src/acme/state.rs:459-475 | on success both halves are live; an error while staging or at the first rename leaves the pair untouched, only one at the second rename leaves a mixed pair; no other file changes |
| AcmeState.StateDir.NewestRetainedEpoch | crates/oxo-pingora-edge/src/acme/state.rs:587-620 | the largest epoch with both certificate and key, or none |
| AcmeState.StateDir.RollbackToRetainedPair | crates/oxo-pingora-edge/src/acme/state.rs:513-585 | restores the newest retained pair, its metadata and a failure record up to a write that fails, going on when only the removal of metadata fails, or touches nothing when no pair is valid |
| AcmeBackoff.NextAttemptBounds | crates/oxo-pingora-edge/src/acme/issue.rs:634-661 | the next attempt is at least the doubled, capped wait and the kind's floor away, and not beyond the jitter |
| Renewal.RenewOnce | crates/oxo-pingora-edge/src/acme/issue.rs:178-221 | backoff, latch, due check, lock, issuer, failing writes of issuance and of the failure record, in the specified order and with the specified file operations |
| Renewal.RecordAfterCall | crates/oxo-pingora-edge/src/acme/state.rs:284-323 | a call keeps the failure record, replaces it by a later one with the count raised, or removes it on success |
| Renewal.FailuresAreCounted | crates/oxo-pingora-edge/src/acme/state.rs:292-297 | each failed call counts one more failure than the record before it; when writing the record fails the old one stays |
| Renewal.KindFollowsMessage | crates/oxo-pingora-edge/src/acme/issue.rs:619-632 | the kind a failed call records: rejected certificate if its message says so in any case, else rate limited if it says "rate" or "429", else transient |
| Renewal.RenewalSchedulesNext | crates/oxo-pingora-edge/src/acme/state.rs:147-148 | after a completed renewal the status reports the next one due exactly from the configured time before the new certificate's expiry on, and always when it has none |
| Renewal.ContactsAreSpaced | crates/oxo-pingora-edge/src/acme/issue.rs:178-221 | after the k-th failure no sequence of calls without a success contacts the issuer before the k-th wait, or the floor, is over |
| Renewal.ContactsExactly | crates/oxo-pingora-edge/src/acme/issue.rs:178-221 | the issuer is contacted exactly by calls that are due, not latched, not locked out and with a challenge server, from the recorded next attempt on |
| Renewal.RetryComes | crates/oxo-pingora-edge/src/acme/issue.rs:634-661 | a failure puts the issuer off for a bounded time: wait and jitter, or the floor; the first unhindered call after that contacts it again |
| Renewal.RenewsExactly | crates/oxo-pingora-edge/src/acme/issue.rs:178-221 | a contacted issuer's answer for the right name with no failing write renews, and only that: new pair, marker, no failure record |
| Renewal.FailuresSpreadOut | crates/oxo-pingora-edge/src/acme/issue.rs:634-661 | failures in a row: the last comes no sooner after the first than the sum of all waits between them |
| Renewal.FailuresDoubleUp | crates/oxo-pingora-edge/src/acme/issue.rs:641-646 | from a clean record, k more failures take at least base * (2^k - 1) seconds while the waits are below their maximum |
| Renewal.LatchHolds | crates/oxo-pingora-edge/src/acme/issue.rs:227-229 | once the last recorded failure is a rejected certificate and the count at least three, no later call contacts the issuer or writes a file |
| Renewal.LatchesExactly | crates/oxo-pingora-edge/src/acme/issue.rs:223-229 | a failed call latches if and only if it is a rejected certificate and at least two failures of any kind stand on record |
| Renewal.MixedFailuresLatch | crates/oxo-pingora-edge/src/acme/issue.rs:223-229 | two transient failures and one rejected certificate latch as well: the count is over failures of every kind |
| CertReload.Supervisor.RestartEdge | crates/oxo-pingora-edge/src/service.rs:1692-1734 | two tries on the live pair, then the newest retained pair; the marker is removed only when the live pair boots; a failing removal or rollback write ends it |
| CertReload.Supervisor.MaybeReloadEdge | crates/oxo-pingora-edge/src/service.rs:1669-1681 | restarts exactly when a marker is there: without one nothing changes, with one an edge that is up has loaded what is on disk |
| CertReload.Supervisor.ReconcileBootMarker | crates/oxo-pingora-edge/src/service.rs:1651-1664 | a marker no newer than the boot is removed and the edge stays the old one; after a newer one no old edge runs on, an edge that is up has loaded what is on disk, and the marker is gone only if the pair is the one that was there |
| CertService.RenewalWritesMarkerFirst | crates/oxo-pingora-edge/src/acme/state.rs:117-146 | no renewal touches the pair before its marker, and none removes it or writes it twice |
| CertService.EdgeRunsWhatIsOnDisk | crates/oxo-pingora-edge/src/service.rs:1506-1564 | in every run with kills, failing writes, manual issuances and crashes that leave an edge and a renewal running, every running edge without a marker has loaded the pair on disk, provided the marker is never taken away while an earlier service's edge runs, between an outside issuance's marker and its renames, or over renames made since the edge started |
| CertService.OrderlyRunsAreHarmFree | crates/oxo-pingora-edge/src/service.rs:1405-1409 | a service that never crashes or fails to remove its marker, with renewals of its own only, meets that condition in every run |
| CertService.ConsumedOverRenames | crates/oxo-pingora-edge/src/service.rs:1713-1717 | taking the marker away is right at that moment if and only if every running edge has the pair on disk |
| CertService.ConsumedBeforeRenames | crates/oxo-pingora-edge/src/service.rs:1651-1664 | taking it away before an outside issuance has renamed is right in the end if and only if that issuance puts back the pair the edges had loaded |
| CertService.OrphanGoesUnnoticed | crates/oxo-pingora-edge/src/service.rs:1651-1664 | the run: a renewal writes its marker, its service crashes, the next boot consumes the marker, the renewal installs its pair |
| CertService.StrayGoesUnnoticed | crates/oxo-pingora-edge/src/service.rs:1232-1250 | the run: a renewal completes, its service crashes, the next boot takes the edge left behind for its own and consumes the marker |
| CertService.MismatchStaysDown | crates/oxo-pingora-edge/src/service.rs:687-724 | a service down over a pair no edge boots on stays down through every run without a manual issuance |
| CertService.DeathBetweenRenames | crates/oxo-pingora-edge/src/acme/state.rs:454-475 | from the first boot: a service, its edge and its renewal that die together between the renames leave such a disk, with the previous pair complete under `retained` |
| CertReload.KilledRenewalEndsServing | crates/oxo-pingora-edge/src/service.rs:1692-1734 | wherever a renewal is killed the restart ends serving a whole pair that is the one on disk: the new one once both renames are done and it boots, else the previous one |
| CertService.RestartRefines | crates/oxo-pingora-edge/src/service.rs:1692-1734 | the restart taken step by step ends in the disk and edge the supervisor method is specified to leave, failing writes included |
| CertService.ReconcileRefines | crates/oxo-pingora-edge/src/service.rs:1651-1664 | the steps after a boot end in the disk and edge the supervisor method is specified to leave, with the marker newer, older or absent and with failing writes |
| CertService.ReapRefines | crates/oxo-pingora-edge/src/service.rs:1669-1681 | the steps after a reap end in the disk and edge the supervisor method is specified to leave, with a marker and without |
| CertReload.RestartLoadsDisk | crates/oxo-pingora-edge/src/service.rs:1692-1734 | an edge that a restart leaves running has loaded what is on disk, and the marker goes only with the pair that was there |
| CertService.KilledRenewalRun | crates/oxo-pingora-edge/src/service.rs:1506-1564 | the same as a run of the service: spawn, any number of operations, kill, reap, restart step by step |
| CertService.LatchHoldsUntilRewritten | crates/oxo-pingora-edge/src/acme/state.rs:577-584 | in every run of the service a latched record stays and no renewal contacts the issuer, exactly until a rollback or a manual issuance rewrites the record |
| CertReload.ClockMustNotRunBack | crates/oxo-pingora-edge/src/acme/state.rs:587-620 | with a larger retained time stamp, whenever it comes to a rollback the previous pair is served if and only if that stamp holds the same pair |
| HeaderSanitizer.NewHeader | crates/oxo-pingora-edge/src/lib.rs:1641-1655 | the lowered name always agrees with the name |
| HeaderSanitizer.SanitizeOwned | crates/oxo-pingora-edge/src/lib.rs:1862-1911 | refuses with the verdict, or keeps and reports exactly the specified headers in order; `HeaderSanitizer.SurvivorsOnTheWire` and `HeaderSanitizer.VerdictExactly` say which on the characters of the request |
| HeaderSanitizer.SanitizeFrame | crates/oxo-pingora-edge/src/lib.rs:1765-1833 | refuses with the verdict, or selects by bitmask the same headers, with count and host flag; which ones is said as for the owned form |
| HeaderSanitizer.SanitizersAgree | crates/oxo-pingora-edge/src/lib.rs:1757-1833 | for up to 128 headers both forms refuse alike or keep the same headers in the same order |
| HeaderSanitizer.KeepingSets | crates/oxo-pingora-edge/src/lib.rs:1742-1755 | setting a header's bit changes the answer for that header and no other |
| HeaderSanitizer.SurvivorsExactly | crates/oxo-pingora-edge/src/lib.rs:1957-1978 | the survivors are exactly the headers neither denied nor nominated by a Connection header; the names reported are exactly those of the others |
| HeaderText.TrimExactly | crates/oxo-pingora-edge/src/lib.rs:1779 | trimming cuts out the stretch between the blanks at the two ends |
| HeaderText.SplitJoins | crates/oxo-pingora-edge/src/lib.rs:1778 | joining the parts with the separator gives the value back, and no part holds the separator |
| HeaderText.SaysExactly | crates/oxo-pingora-edge/src/lib.rs:1790-1796 | some part, trimmed and lowered, is a name if and only if between two separators the value spells that name in any case with only blanks around it |
| HeaderSanitizer.NominatedExactly | crates/oxo-pingora-edge/src/lib.rs:1867-1880 | a name is nominated if and only if a header spelled Connection says it between two commas |
| HeaderSanitizer.SurvivorsOnTheWire | crates/oxo-pingora-edge/src/lib.rs:1957-1978 | a header survives if and only if its name is on no list and no Connection header of the request says it |
| HeaderSanitizer.MediaTypeExactly | crates/oxo-pingora-edge/src/lib.rs:1917-1935 | the media type is what stands before the first semicolon without the blanks around it, in lower case |
| HeaderSanitizer.AcceptsExactly | crates/oxo-pingora-edge/src/lib.rs:1950-1955 | a value asks for an event stream if and only if between two commas, up to a semicolon, it spells the type in any case with only blanks around it |
| HeaderSanitizer.VerdictExactly | crates/oxo-pingora-edge/src/lib.rs:1799-1815 | a request is refused if and only if a Connection header says upgrade or some header is an upgrade, websocket, gRPC or, without event streams, an event-stream one, in any case |
| HeaderSanitizer.SanitizingIsIdempotent | crates/oxo-pingora-edge/src/lib.rs:1862-1911 | sanitizing the survivors refuses nothing and changes nothing |
| CrashWindow.Supervisor.BeginAttempt | crates/oxo-edge/src/supervised.rs:363-394 | drops what left the window, records the attempt, and chooses the delay |
| CrashWindow.Supervise | crates/oxo-edge/src/supervised.rs:349-394 | through any history of deaths and attempts the supervisor chooses exactly the delays the bounds speak of, clears included |
| CrashWindow.WindowExactly | crates/oxo-edge/src/supervised.rs:349-371 | the window holds exactly the attempts of the last window's length since the last clear, in order |
| CrashWindow.DelaysDouble | crates/oxo-edge/src/supervised.rs:687-689 | below the limit an outage's first attempt does not wait, its first retry waits twice the base, and each further one twice as long up to the cap |
| CrashWindow.AttemptsAreBounded | crates/oxo-edge/src/supervised.rs:349-409 | any interval of the window's length between two clears holds at most max(limit, 1) + window / cap attempts |
| CrashWindow.ThrottlesExactly | crates/oxo-edge/src/supervised.rs:349-409 | clears included, the attempts in one window's length are bounded over all histories if and only if the cap is positive and either the minimum uptime is positive or the limit at most one; with the bound |
| CrashWindow.ZeroUptimeNeverThrottles | crates/oxo-edge/src/supervised.rs:349-353 | with a minimum uptime of zero and a limit above one, any number of attempts fits into one instant |
| CrashWindow.ZeroCapNeverThrottles | crates/oxo-edge/src/supervised.rs:386-398 | with a cap of zero any number of attempts fits into one instant, whatever the limit and the minimum uptime |
| CrashWindow.BoundIsReached | crates/oxo-edge/src/supervised.rs:386-398 | there is a history that attains this bound, and for a positive minimum uptime no death in it clears the window |
| BatchedBoot.TearDown | crates/oxo-pingora-edge/src/service.rs:822-828 | terminates exactly what is booting or ready |
| BatchedBoot.SpawnAll | crates/oxo-pingora-edge/src/service.rs:829-852 | all slots spawned, or every spawned child terminated |
| BatchedBoot.Pass | crates/oxo-pingora-edge/src/service.rs:860-917 | every slot stays booting or moves to its own place exactly when it reports ready; the first failure stops the pass |
| BatchedBoot.SpawnWorkerPoolBatched | crates/oxo-pingora-edge/src/service.rs:810-932 | success returns the n ready workers in slot order, every other exit terminates each spawned child, within n windows plus naps plus polling; a timeout means a whole window without progress while somebody was awaited, and without such a window an undisturbed boot succeeds |
| AsyncWorker.FramesAreOrderlyExactly | ruby/oxo_async_worker.rb:1257-1416 | in every interleaving each request puts at most one frame on its socket, in order, with nothing after an error frame, if and only if the drain never gives up on a fiber inside its own error frame |
| AsyncWorker.FramesSayHowCallsEnded | ruby/oxo_async_worker.rb:1362-1416 | a socket carries a good frame for exactly the calls whose application answered while it was open, and an error frame for exactly those that raised or were given up on while it was open |
| AsyncWorker.ErrorFrameCanDouble | ruby/oxo_async_worker.rb:409-431 | the run that puts two error frames on one socket |
| AsyncWorker.CallsAreDecoded | ruby/oxo_async_worker.rb:1332-1342 | the application is entered only with a request decoded in full from a well-formed frame on an open socket |
| AsyncWorker.DispatchesExactly | ruby/oxo_async_worker.rb:1332-1342 | a connection that is read and open enters the application with a request if and only if its frame carries that request |
| AsyncWorker.ServesAgain | ruby/oxo_async_worker.rb:1362-1396 | without a drain an open connection that receives a request, has it answered and the answer written is back at its read with one good frame more |
| AsyncWorker.NoCallAfterDrain | ruby/oxo_async_worker.rb:1571-1595 | once idle connections are closed no application call starts and no connection is added |
| SampleRing.Ring.RecordSample | ruby/oxo_async_worker.rb:717-734 | the sample is recorded, in its slot, and a loss is counted when an unread one is overwritten |
| SampleRing.Ring.DumpRing | ruby/oxo_async_worker.rb:736-755 | the file gains exactly the unread samples still in the ring, in order |
| SampleRing.EverySampleHasOneFate | ruby/oxo_async_worker.rb:1196-1234 | every sample is written, lost or waiting, exactly one of these, and the output is in order |
| SampleRing.LossesAreCounted | ruby/oxo_async_worker.rb:717-755 | the loss counter is the number of overwritten samples, and recorded = written + lost + waiting |

## Left out

- Lock contention counters, reference-count identity and memory orderings weaker than interleaving of single atomic steps.
- Counter widths in the limiters and in the pool: totals and insertion numbers are unbounded; `active` never exceeds the cap.
- The global limiter has no completed and cancelled totals; read the dropping phase of the limiter model as its end there.
- The drained total and the byte accounting of long-lived guards: one-line counters.
- CertService.EdgeRunsWhatIsOnDisk: an edge loads both halves of the pair at one instant, and at most one edge and one issuing process outlive a crash at a time, because one address and one lock are all there is to hold.
- CertService.ReconcileRefines: a marker that cannot be removed during the boot's own restart leaves the edge behind here, as it does later; the program terminates that edge when its boot fails, so the model allows more.
- The network paths of issuance (`issue_once_with_instant_acme`, `renew_once_with_instant_acme`): foreign protocol code.
- X.509 and PEM parsing, JSON text, file modes, symbolic-link checks and fsync: a pair's validity and expiry are parameters, records are datatypes, a rename is atomic.
- AsyncWorker.FramesAreOrderlyExactly: takes the drain's write, flush and close of an error frame as one step, and closing all idle connections as one step; the registry and the fibers are modelled on values, without the reused buffers.
- AsyncWorker.CallsAreDecoded: does not model timing, fair reads or how bytes arrive in pieces.
- SampleRing.Ring.RecordSample: the sample is any value; clamping a measurement to 32 bits and packing its flags are left out, and so is a ring without an output directory, which never dumps.
- Ruby strings with an invalid encoding, for which `downcase` raises before a header is sanitized.
- BatchedBoot.SpawnWorkerPoolBatched: a spawn failure and a missing readiness pipe give one error value here.
- The staged drain of the service, `validate_drain_grace_hierarchy`, worker restart and monitor loop outside renewal: wide, with one-branch facts.
- Configuration ladders, environment readers, descriptor budgets, histograms and scheduling measurements.
- Pingora, tokio, hyper and the request route around admission: foreign code or I/O.
