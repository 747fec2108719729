# Verified model of the gamlastan SAML library

This project models, in Dafny, the parts of the gamlastan SAML workspace where
correctness depends on several pieces of code agreeing or on what happens over a
whole run: the HTTP-Redirect and HTTP-POST bindings, the one-time tables that
correlate responses with requests, the metadata query client, the choice of
authentication methods, attribute conversion, and the signature algorithm
policy. Dafny is the only language used.

Code that loops over buffers is a `method` with loop invariants, proved equal to
a recursive specification function; objects whose fields change are classes
whose methods state their whole new state; concurrent handlers are step
relations over any number of threads, with one step per lock. The theorems are
then about the specification functions and about every run.

| file | what it models |
|---|---|
| `Wrappers`, `SetSizes`, `Decimals`, `ByteStrings`, `Scalars`, `BindingErrors` | results and options, sizes of sets, decimal print, byte strings with a concrete UTF-8 predicate, its equivalence with RFC 3629, the binding errors |
| `Encoding`, `EncodingGuarantees` | percent-coding (section 2 of RFC 3986) and base64 (section 4 of RFC 4648), both concrete, and what they accept against the literal tables of these standards |
| `Deflate` | the bounded decompression loop over any DEFLATE codec |
| `HttpAdapter` | the framework adapter with its own query parser and lenient percent-decoder |
| `RedirectBinding`, `RedirectGuarantees` | the Redirect binding (section 3.4.4.1 of SAML V2.0 Bindings) and its guarantees |
| `PostBinding` | the POST binding (section 3.5 of SAML V2.0 Bindings), a browser's reading of the form, and form submission |
| `BindingOutcomes` | for every request of either binding, when decoding succeeds, with what, and which error it gives otherwise |
| `RequestIdTracker` | the request ID tracker with TTL, eviction and browser binding |
| `IdpLogin` | the login form of the example IdP, any number of handlers |
| `ReplayCache`, `SpidAcs`, `SpidAcsProgress` | the replay cache, and the SPID assertion consumer, any number of handlers: what every run keeps, and what decides each step |
| `XsDuration`, `MetadataSelection`, `MdqRequest`, `MdqClient` | durations, selection in nested aggregates, request addresses, retry and caching of the metadata query client |
| `AuthnBroker` | selection of authentication methods (section 3.3.2.2.1 of SAML V2.0 Core) |
| `AttributeMap` | conversion between wire and local attribute names |
| `AlgorithmPolicy`, `SignaturePolicy` | algorithm allowlists, and the walk over the signatures of a document |

## How to read the main results

* **Redirect binding.** `RedirectGuarantees.VerifiedEqualsConsumed` reduces
  decoding to one reference reading of the request target's query (`DecodeCarried`
  of the five carried pairs): when the scheme and the host the framework reports
  hold no question mark, the strict scanner that builds the signature input and
  the adapter's lenient parser cannot disagree. `SignedTextDeterminesMessage`
  says under the same condition that decoding the signed text on its own gives
  the same message. `RedirectRoundTrip` and `DestinationServesExactly` say exactly
  when the receiver gets back what was sent, including the very text that was
  signed.
* **POST binding.** `PostBinding.PostRoundTrip` goes from the sender through the
  HTML document, a browser's reading of that document and any conforming form
  encoder to the receiver; `PostReturnsExactly` says when nothing at all changes
  on the way.
* **Correlation tables.** `RequestIdTracker.EveryRun` and
  `BoundedAnswersLikeUnlimited` compare the bounded tracker with one that never
  evicts; `IdpLogin.AtMostOneReply`, `IdpLogin.ReplyIsEarned`,
  `SpidAcs.OneSuccessPerStore`, `SpidAcs.SuccessIsEarned`,
  `SpidAcs.NoReplayedSuccess` and `SpidAcs.SameResponseLater` hold in every state of every interleaving. The
  SPID handlers read the clock before they take the lock, and the model keeps
  these two as separate steps. The other direction, that nothing is refused without
  cause, is `IdpLogin.RefusedExactly`, `IdpLogin.RightPasswordReplies`,
  `SpidAcsProgress.StepsExactly` and `SpidAcsProgress.AcceptedWithoutCause`.
* **Metadata client.** `MetadataSelection.SelectIsFirstInOrder` relates the
  recursion to a flat reading in document order; `MdqClient.EveryState` holds for
  every interleaving of the steps lock, release, fetch, lock again, and traces all
  stored, cached and answered metadata to loads that `LoadsWereMade` shows to be
  steps of the run; `LoadExactly` says when a load succeeds and `QueryStepExactly`
  when one is made.
* **Signatures of a document.** `SignaturePolicy.EnvelopedExactly` says when the
  check of a document passes, for all signatures or for the first one in document
  order, a position in the tree being the path of child numbers to it.

Results that show where the code does not keep what one might expect:

* `RedirectGuarantees.FrontSafeExactly`: the adapter puts the address together
  from scheme, host and request target and parses the parameters from the target
  alone, while decoding splits the address at its first question mark. Consumed
  and verified values agree for every request target exactly when scheme and host
  hold no question mark; `HostHidesDuplicate` is the smallest failure.
* `RedirectGuarantees.DestinationServesExactly`: every message that fits in 1 MiB
  arrives at a destination exactly when the destination has no fragment and its
  query, without the tabs and line breaks a user agent drops, has only keys that
  decode and name none of the five SAML parameters;
  `FragmentExample` is a failing destination. (For a single message an
  unconditional equivalence would be wrong: a destination with a fragment may
  itself carry that very message, as `FragmentCanCarry` shows, which is why
  `RedirectRoundTrip` gives its outcome instead.)
* `PostBinding.PostReturnsExactly`: a RelayState comes back unchanged exactly when
  it holds no NUL and every line break of it is a CR LF; a browser rewrites the
  others, as `LineFeedComesBackLonger` shows.
* `MdqRequest.OneSegment`: the identifiers `.` and `..` stay unencoded and vanish
  when the address is parsed, as does the empty one.
* `MdqClient.LookupTotalExactly`: a duration hint that reaches past the last
  representable instant makes later lookups of its entry panic;
  `LongHintBreaksLookup` is such a hint.
* `AuthnBroker.DistinctExactly`: `add` does not look at the references already
  taken. Over any series of registrations references are distinct exactly when no
  chosen one is the print of a number still to come; `ChosenReferenceCollides` is
  the smallest failure.
* `XsDuration.SchemaExactly`: the parser accepts every unsigned duration of section
  3.2.6 of XML Schema Part 2 that fits (`SchemaDurationsAccepted`), and more than
  its documentation describes. An accepted text is such a duration exactly when
  its one reading has the schema form; `DayBeforeYear`, `DayTwice` and `EmptyTime`
  are accepted texts that are not.
* `AttributeMap.RoundTripExactly`: a name comes back only if its wire name is not
  known inbound under another name; the condition is read off the two maps.

## Model

| member | source | states |
|---|---|---|
| Encoding.UrlEncode | crates/gamlastan/src/bindings/encoding.rs:37-52 | The byte loop computes the percent-coded text that `DecodeEncoded` shows to be undone by decoding |
| Encoding.UrlDecode | crates/gamlastan/src/bindings/encoding.rs:55-82 | The index loop computes the strict decoding that `EncodingGuarantees.PercentDecodesExactly` characterises |
| Encoding.DecodeEncoded | crates/gamlastan/src/bindings/encoding.rs:37-82 | Decoding undoes encoding for all bytes, whatever text follows |
| Encoding.PercentRoundTrip | crates/gamlastan/src/bindings/encoding.rs:37-82 | Every valid string survives encoding and decoding |
| Encoding.PercentEncodedAlphabet | crates/gamlastan/src/bindings/encoding.rs:34-52 | Encoded text holds only unreserved bytes and percent signs |
| Encoding.StrictDecodeIsInverse | crates/gamlastan/src/bindings/encoding.rs:14-32 | The strict base64 decoder accepts a text with a result exactly when it is the canonical encoding of that result |
| Encoding.Base64RoundTrip | crates/gamlastan/src/bindings/encoding.rs:14-32 | The whitespace-tolerant decoder gives back what was encoded |
| Encoding.StripKeepsBase64 | crates/gamlastan/src/bindings/encoding.rs:28-32 | Removing whitespace leaves encoded text alone |
| Scalars.Utf8Exactly | crates/gamlastan/src/bindings/encoding.rs:55-82 | The UTF-8 test at the end of decoding accepts exactly the RFC 3629 encodings of series of scalar values |
| EncodingGuarantees.HexValueExactly | crates/gamlastan/src/bindings/encoding.rs:103-110 | A byte is read as a digit exactly when it is a spelling of that digit in one of the two literal tables |
| EncodingGuarantees.EscapeReads | crates/gamlastan/src/bindings/encoding.rs:55-110 | Every spelling of two digits after a percent sign, in either case, stands for the byte 16·i+j, whatever follows |
| EncodingGuarantees.ByteReads | crates/gamlastan/src/bindings/encoding.rs:71-79 | Any other byte stands for itself, the plus sign for a space |
| EncodingGuarantees.DecodesExactly | crates/gamlastan/src/bindings/encoding.rs:55-81 | The bytes are decoded exactly when two bytes of the digit tables follow every percent sign |
| EncodingGuarantees.DecodeErrorExactly | crates/gamlastan/src/bindings/encoding.rs:59-70 | The first percent sign without its digits decides the error: incomplete if fewer than two bytes follow it, a bad digit otherwise |
| EncodingGuarantees.PercentDecodesExactly | crates/gamlastan/src/bindings/encoding.rs:55-82 | Decoding succeeds exactly when two digits follow every percent sign and the result is UTF-8, and fails as not UTF-8 exactly when only the latter is missing |
| EncodingGuarantees.EncodeByteExactly | crates/gamlastan/src/bindings/encoding.rs:37-52 | Exactly the unreserved characters of RFC 3986 are left alone; every other byte is written as a percent sign and its two upper-case digits |
| EncodingGuarantees.GroupExactly | crates/gamlastan/src/bindings/encoding.rs:14-16 | Three bytes are written as the four six-bit digits of their 24-bit number, a short last group with zero bits and padding |
| EncodingGuarantees.Base64CharExactly | crates/gamlastan/src/bindings/encoding.rs:14-16 | The digits are those of table 1 of RFC 4648 |
| EncodingGuarantees.StripExactly | crates/gamlastan/src/bindings/encoding.rs:28-32 | Of any string exactly the scalar values with the White_Space property are removed, wherever they stand |
| EncodingGuarantees.Base64DecodesExactly | crates/gamlastan/src/bindings/encoding.rs:28-32 | A string decodes to given bytes exactly when, with its whitespace removed, it is their canonical encoding |
| Deflate.DeflateDecompress | crates/gamlastan/src/bindings/deflate.rs:36-56 | For any chunks the decoder hands out: all data exactly when there is at most 1 MiB of it and the stream is sound, too large exactly beyond 1 MiB, a decoding error for a corrupt stream within it; the buffer never exceeds the limit by more than one chunk |
| HttpAdapter.UrlDecodeSimple | crates/gamlastan-actix/src/request_adapter.rs:156-181 | The byte loop computes the lenient reading that `LenientReads` characterises, and fails exactly when the result is not UTF-8 |
| HttpAdapter.LenientAgrees | crates/gamlastan-actix/src/request_adapter.rs:156-181 | Wherever the strict decoder succeeds the lenient one gives the same bytes |
| HttpAdapter.LenientKeyAgrees | crates/gamlastan-actix/src/request_adapter.rs:136-153 | A key the strict decoder accepts is the key the adapter looks parameters up by |
| HttpAdapter.PairsConcat | crates/gamlastan-actix/src/request_adapter.rs:136-153 | Cutting two queries joined by `&` gives the pairs of the first and then those of the second |
| HttpAdapter.PairsExactly | crates/gamlastan-actix/src/request_adapter.rs:136-153 | A query that joins pieces with `&` has those that are not empty as its pairs, in order |
| HttpAdapter.CutExactly | crates/gamlastan-actix/src/request_adapter.rs:143-150 | A pair is cut at its first `=`; without one it is all key |
| HttpAdapter.LenientReads | crates/gamlastan-actix/src/request_adapter.rs:156-181 | The lenient decoder on every two bytes after a percent sign, on an escape cut short and on any other byte: what is no digit of the literal tables counts as zero |
| HttpAdapter.FindsFirst | crates/gamlastan-actix/src/request_adapter.rs:96-101 | A lookup gives the raw value of the first pair whose key has that name, decoded if that is UTF-8 and as it stands otherwise |
| HttpAdapter.UrlQueryExactly | crates/gamlastan-actix/src/request_adapter.rs:42-53 | The address is scheme, `://`, host and request target; it has the query of the target exactly when scheme and host hold no question mark |
| RedirectBinding.RedirectEncode | crates/gamlastan/src/bindings/redirect.rs:66-110 | The URL is the destination with the pairs message, RelayState, SigAlg, Signature; the signer gets exactly the joined pairs before Signature; codec and signer errors are passed on |
| RedirectBinding.RawPairByDecodedName | crates/gamlastan/src/bindings/redirect.rs:238-249 | The scan gives the first raw pair whose key decodes to the name, or the error of the first bad key before it |
| RedirectBinding.BuildRedirectSignatureInput | crates/gamlastan/src/bindings/redirect.rs:252-269 | The raw pairs of message, RelayState if present and SigAlg joined in the order of the standard; which error for which absent pair |
| RedirectGuarantees.ReadersAgree | crates/gamlastan/src/bindings/redirect.rs:228-249 | Counter, scanner and the adapter's own parser and decoder all see the same matching pairs of a query whose keys decode |
| RedirectGuarantees.CountFailsOnBadKey | crates/gamlastan/src/bindings/redirect.rs:228-235 | Counting fails exactly when some key does not decode |
| RedirectGuarantees.UniquenessMeaning | crates/gamlastan/src/bindings/redirect.rs:202-225 | The check passes exactly when all keys decode, each of the five parameters occurs at most once and not both messages occur |
| RedirectGuarantees.VerifiedEqualsConsumed | crates/gamlastan/src/bindings/redirect.rs:119-194 | For every request whose scheme and host hold no question mark, decoding through the adapter equals the reference reading of the request target: what is consumed and what is joined into the signature input are the same carried pairs |
| RedirectGuarantees.FrontSafeExactly | crates/gamlastan-actix/src/request_adapter.rs:42-53 | Given a codec that opens anything at all: decoding equals the reference reading for every request target exactly when scheme and host hold no question mark |
| RedirectGuarantees.HostHidesDuplicate | crates/gamlastan/src/bindings/redirect.rs:119-194 | A failing input: behind the host `h?x=` the first of two messages escapes the uniqueness check; decoding succeeds and delivers that message with the signature, while the text for the signature check is that of the other |
| RedirectGuarantees.ParamsAreCarried | crates/gamlastan-actix/src/request_adapter.rs:96-101 | Each parameter handed out by an adapter that parsed a query is the value part of the one carried pair of that query |
| RedirectGuarantees.SignatureInputOf | crates/gamlastan/src/bindings/redirect.rs:252-269 | The signature input is the join of the carried pairs |
| RedirectGuarantees.SamePairsSameMatching | crates/gamlastan/src/bindings/redirect.rs:196-225 | Two queries with the same multiset of SAML pairs have the same number of matches for each name, and the same match if there is at most one |
| RedirectGuarantees.DecodeIgnoresOrderAndStrangers | crates/gamlastan/src/bindings/redirect.rs:119-269 | Permuting a query and adding unrelated pairs whose keys decode changes neither the reference reading nor, behind fronts without a question mark, the outcome of decoding |
| RedirectGuarantees.SignedTextDeterminesMessage | crates/gamlastan/src/bindings/redirect.rs:167-184 | Without a question mark in front of the request targets, decoding the signed text on its own gives the same message without the signature |
| RedirectGuarantees.PartsAreCarried | crates/gamlastan/src/bindings/redirect.rs:202-249 | A query of unrelated pairs followed by known SAML pairs passes the check and carries exactly those |
| RedirectGuarantees.QueryOfUrl | crates/gamlastan/src/bindings/redirect.rs:103-120 | The receiver's query has the pairs the destination brought along, then the sender's |
| RedirectGuarantees.PairReadsBack | crates/gamlastan/src/bindings/redirect.rs:82-101 | A written pair holds no separator, has its name as decoded key and its coded value as value part |
| RedirectGuarantees.OwnPairsDecode | crates/gamlastan/src/bindings/redirect.rs:141-184 | The pairs the sender wrote decode to what was sent, or to the size error beyond 1 MiB |
| RedirectGuarantees.RelatedPairShows | crates/gamlastan/src/bindings/redirect.rs:202-225 | A SAML parameter in the destination that survives the check fills an option the sender left empty |
| RedirectGuarantees.ArrivesExactly | crates/gamlastan/src/bindings/redirect.rs:66-194 | Without a fragment in the destination, the reference reading of what is delivered is what was sent if and only if the message fits in 1 MiB and the destination's keys, without tabs and line breaks, decode and name no SAML parameter |
| RedirectGuarantees.RedirectRoundTrip | crates/gamlastan/src/bindings/redirect.rs:66-194 | The same for the receiver behind any front without a question mark; with a fragment in the destination the outcome is that of the destination alone, and nothing of the message arrives |
| RedirectGuarantees.DestinationServesExactly | crates/gamlastan/src/bindings/redirect.rs:103-109 | Every message that fits arrives at a destination if and only if it has no fragment and its keys, without tabs and line breaks, decode and name no SAML parameter |
| RedirectGuarantees.FragmentExample | crates/gamlastan/src/bindings/redirect.rs:103-109 | A failing destination: at `https://idp#a` every message is missing |
| RedirectGuarantees.FragmentCanCarry | crates/gamlastan/src/bindings/redirect.rs:103-109 | A message arrives at a destination with a fragment when the destination already carries that very message |
| RedirectGuarantees.SignedMessageVerifies | crates/gamlastan/src/bindings/redirect.rs:275-293 | A message signed by a signer and sent to a destination that serves passes signature verification by any verifier that accepts that signer |
| BindingOutcomes.UniquenessErrors | crates/gamlastan/src/bindings/redirect.rs:202-235 | Which error the check gives: that of the first bad key, else both messages, else the first repeated parameter in the order of the list |
| BindingOutcomes.RedirectDecodeExactly | crates/gamlastan/src/bindings/redirect.rs:119-194 | Decoding a request target gives a result exactly when its query names each parameter at most once and not both messages, its keys decode, and every field of the result is what its pair stands for, with at most 1 MiB of message and a SigAlg beside every signature |
| BindingOutcomes.RedirectDecodeErrors | crates/gamlastan/src/bindings/redirect.rs:119-194 | Which error decoding a request target ends in otherwise, in the order of the steps |
| BindingOutcomes.VerifiedExactly | crates/gamlastan/src/bindings/redirect.rs:275-293 | What was decoded passes signature verification exactly when the target carries a signature that the verifier accepts for the joined raw pairs; without a signature it fails |
| BindingOutcomes.BothOrNeitherRefused | crates/gamlastan/src/bindings/redirect.rs:125-139 | A request with both messages or with neither, from any adapter, is refused by either binding |
| PostBinding.HtmlEscape | crates/gamlastan/src/bindings/post.rs:179-192 | The character loop computes the escaped text that `EscapeRoundTrip` shows to be readable back |
| PostBinding.PostEncode | crates/gamlastan/src/bindings/post.rs:35-90 | The document is the page around the escaped action address and the hidden fields, message first, RelayState only if present |
| PostBinding.EscapeRoundTrip | crates/gamlastan/src/bindings/post.rs:179-192 | Reading the character references back undoes escaping |
| PostBinding.EscapedHasNoMarkup | crates/gamlastan/src/bindings/post.rs:179-192 | Escaped text holds no raw quote or angle bracket |
| PostBinding.DocumentReadsBack | crates/gamlastan/src/bindings/post.rs:35-90 | For any destination and values a browser reading the document finds exactly that action address and those fields, up to line break spelling and NUL replacement |
| PostBinding.FormDecodes | crates/gamlastan/src/bindings/encoding.rs:55-82 | The decoder undoes any conforming form encoder, with space as plus or as an escape |
| PostBinding.MessageDecodes | crates/gamlastan/src/bindings/post.rs:95-142 | Whichever decoding branch a submitted message takes gives the message back |
| PostBinding.RelayDecodes | crates/gamlastan/src/bindings/post.rs:95-142 | Whichever decoding branch a submitted RelayState takes gives the RelayState back |
| PostBinding.FieldPair | crates/gamlastan/src/bindings/post.rs:169-176 | An encoded field is one clean pair whose key decodes to the field name and whose value part is the encoded value |
| PostBinding.PostUniqueness | crates/gamlastan/src/bindings/post.rs:149-166 | A body that passes the check for the five Redirect parameters passes the POST check; when the POST check passes in general is `BindingOutcomes.PostUniqueExactly` |
| BindingOutcomes.PostUniqueExactly | crates/gamlastan/src/bindings/post.rs:149-176 | The check passes exactly when all keys decode, each of the three parameters matches at most one pair and not both messages occur |
| BindingOutcomes.PostUniquenessErrors | crates/gamlastan/src/bindings/post.rs:149-176 | Which error the check gives: that of the first bad key, else both messages, else the repeated SAMLRequest, SAMLResponse or RelayState |
| BindingOutcomes.PostDecodeExactly | crates/gamlastan/src/bindings/post.rs:98-142 | Decoding any body gives a result exactly when the body is UTF-8, its message is that of the only pair for a message, and its RelayState that of the only pair for one; anything repeated is an error |
| BindingOutcomes.PostDecodeErrors | crates/gamlastan/src/bindings/post.rs:98-123 | Which error decoding a body ends in before a value is decoded |
| BindingOutcomes.PostValueErrors | crates/gamlastan/src/bindings/post.rs:125-136 | Which error a message or RelayState that does not decode gives |
| PostBinding.PostRoundTrip | crates/gamlastan/src/bindings/post.rs:35-142 | From sender through document, browser and form encoder to receiver: same XML and direction, and the RelayState with line breaks spelled CR LF and NULs replaced |
| PostBinding.RewritingKeepsExactly | crates/gamlastan/src/bindings/relay_state.rs:38-44 | A value that may be echoed unchecked survives the rewriting exactly when it has no NUL and only CR LF line breaks |
| PostBinding.PostReturnsExactly | crates/gamlastan/src/bindings/post.rs:35-142 | XML, direction and RelayState all come back unchanged if and only if the RelayState has no NUL and only CR LF line breaks |
| PostBinding.LineFeedComesBackLonger | crates/gamlastan/src/bindings/post.rs:35-142 | A failing input: the RelayState of a single line feed comes back as CR LF |
| PostBinding.SourcePageIsValid | crates/gamlastan/src/bindings/post.rs:86-87 | What is written after the hidden fields does not read as a further hidden field |
| RequestIdTracker.InMemoryRequestIdTracker.WithLimits | crates/gamlastan-actix/src/config.rs:229-235 | Starts empty with an empty history; capacity zero is raised to one |
| RequestIdTracker.InMemoryRequestIdTracker.Insert | crates/gamlastan-actix/src/config.rs:243-263 | Drops expired entries, evicts an oldest entry only when a new ID meets a full table, and keeps the table in step with the history |
| RequestIdTracker.InMemoryRequestIdTracker.Store | crates/gamlastan-actix/src/config.rs:273-275 | The unbound insertion |
| RequestIdTracker.InMemoryRequestIdTracker.StoreBound | crates/gamlastan-actix/src/config.rs:295-297 | The insertion bound to a browser |
| RequestIdTracker.InMemoryRequestIdTracker.Consume | crates/gamlastan-actix/src/config.rs:277-292 | Succeeds only for what the history has outstanding, unbound and live; always succeeds for that below the eviction load; leaves a live bound entry untouched |
| RequestIdTracker.InMemoryRequestIdTracker.ConsumeBound | crates/gamlastan-actix/src/config.rs:300-317 | The same for a browser: a wrong-browser call leaves a live entry untouched |
| RequestIdTracker.OutstandingMeaning | crates/gamlastan-actix/src/config.rs:243-317 | An ID is outstanding exactly when its latest store has had no successful consumption since |
| RequestIdTracker.AcceptsExactly | crates/gamlastan-actix/src/config.rs:277-317 | The unlimited tracker accepts exactly while the latest store of the ID, with no success after it, is of that browser and less than the TTL ago |
| RequestIdTracker.InsertExactly | crates/gamlastan-actix/src/config.rs:243-263 | After an insertion the table has the new entry and of the others only live ones; all of those, unless a new ID met a full table, and then all but one of the oldest |
| RequestIdTracker.InsertTracks | crates/gamlastan-actix/src/config.rs:243-263 | Insertion keeps the table within capacity and missing only what expired or was crowded out |
| RequestIdTracker.ConsumeTracks | crates/gamlastan-actix/src/config.rs:277-317 | Consumption keeps the same invariant |
| RequestIdTracker.VictimHasRivals | crates/gamlastan-actix/src/config.rs:243-263 | An evicted entry has at least as many other IDs stored no earlier than it as the table has places |
| RequestIdTracker.AnswerIsSound | crates/gamlastan-actix/src/config.rs:277-317 | A success is one the unlimited tracker would give; a refusal of what it would accept means crowding out |
| RequestIdTracker.EveryRun | crates/gamlastan-actix/src/config.rs:229-317 | In every run with a nondecreasing clock: capacity is never exceeded, every success is justified by the history, every unjustified refusal comes with as many rivals as places |
| RequestIdTracker.UnlimitedIsUnique | crates/gamlastan-actix/src/config.rs:272-318 | The unlimited tracker has one series of answers for each series of calls |
| RequestIdTracker.BoundedAnswersLikeUnlimited | crates/gamlastan-actix/src/config.rs:229-317 | Below that load the bounded tracker answers every call as the unlimited one does |
| RequestIdTracker.OneTimeUse | crates/gamlastan-actix/src/config.rs:272-318 | In every run an ID is consumed at most as often as it was stored, with one to spare while outstanding |
| IdpLogin.PendingAuthnRequests.PurgeExpired | example-idp/src/main.rs:829-834 | Keeps exactly the entries of age at most the TTL |
| IdpLogin.PendingAuthnRequests.Store | example-idp/src/main.rs:837-849 | Purges, then stores unless the table is full |
| IdpLogin.PendingAuthnRequests.Peek | example-idp/src/main.rs:852-859 | Purges and reads without consuming |
| IdpLogin.PendingAuthnRequests.Take | example-idp/src/main.rs:862-869 | Purges, reads and removes |
| IdpLogin.EveryStateKeepsInv | example-idp/src/main.rs:695-869 | The table, thread and log invariant holds in every state of every interleaving |
| IdpLogin.AtMostOneReply | example-idp/src/main.rs:695-869 | Replies for an ID never exceed takes, takes never exceed stores, and the table never exceeds 1024 entries, in every interleaving |
| IdpLogin.ReplyIsEarned | example-idp/src/main.rs:695-809 | Every reply is by a handler that had the right password and earlier took that very request, at an age of at most the TTL, after some handler stored it under that ID |
| IdpLogin.WrongPasswordNeverTakes | example-idp/src/main.rs:709-735 | In every run only a handler with the right password ever takes a request; when one with the right password does is `RefusedExactly` and `RightPasswordReplies` |
| IdpLogin.StepsExactly | example-idp/src/main.rs:695-869 | In every interleaving, what decides each step: a store succeeds exactly below 1024 live entries, a submission passes either access exactly when its request is live there and the password check exactly when the stored password is the one given, and then it replies |
| IdpLogin.TableAfterStep | example-idp/src/main.rs:829-869 | What each step leaves in the table, entry by entry |
| IdpLogin.RefusedExactly | example-idp/src/main.rs:706-735 | Over every interleaving and its log, a step ends refused before the password check exactly when its request was not there or older than five minutes, at the check exactly when the username is unknown or the stored password differs, after it exactly when the request was no longer live, and nowhere else |
| IdpLogin.RightPasswordReplies | example-idp/src/main.rs:695-809 | Whatever other handlers do: with the right password and a request that is live at both accesses a handler holds that request, and its next step is the reply to it |
| IdpLogin.LiveEntrySurvives | example-idp/src/main.rs:829-869 | No step but the take of an ID or a new store under it removes or changes its live entry |
| ReplayCache.InMemoryReplayCache.CheckInsert | crates/gamlastan/src/security/replay.rs:69-104 | Atomic insert-if-absent with the lazy scan |
| ReplayCache.InMemoryReplayCache.Prune | crates/gamlastan/src/security/replay.rs:106-111 | Removes exactly the expired entries and resets the scan mark |
| ReplayCache.CheckRemembers | crates/gamlastan/src/security/replay.rs:69-104 | The lazy scan changes no answer: an ID is refused exactly when an earlier check admitted it and that admission has not expired |
| ReplayCache.AdmittedTwice | crates/gamlastan/src/security/replay.rs:69-104 | An ID admitted twice had expired in between |
| ReplayCache.PruningRemembers | crates/gamlastan/src/security/replay.rs:69-111 | Pruning and cleanup forget nothing that is still live |
| SpidAcs.PendingRequests.Store | spid-sp-test/src/main.rs:1358-1380 | Purges, then stores unless a new ID meets a full table |
| SpidAcs.PendingRequests.Peek | spid-sp-test/src/main.rs:1383-1391 | Purges and reads without consuming |
| SpidAcs.PendingRequests.Take | spid-sp-test/src/main.rs:1394-1402 | Purges, reads and removes |
| SpidAcs.TokensNameIds | spid-sp-test/src/main.rs:120-147 | The IDs registered are the response's and every assertion's, each with its own expiry or else the fallback |
| SpidAcs.EveryStateKeepsInv | spid-sp-test/src/main.rs:519-1402 | The table, replay, thread and log invariant holds in every state of every interleaving |
| SpidAcs.OneSuccessPerStore | spid-sp-test/src/main.rs:1133-1151 | Successes for an ID never exceed stores under it and the table never exceeds 1024 entries, in every interleaving |
| SpidAcs.SuccessIsEarned | spid-sp-test/src/main.rs:646-1151 | Every success passed every check, each at a clock reading the same handler made for it earlier, against an entry stored under the ID it answers, and took such an entry within the TTL; with one store both are the same entry |
| SpidAcs.NoReplayedSuccess | spid-sp-test/src/main.rs:120-147 | Two successes are by different handlers, and if they share a response or assertion ID, two distinct checks by these two handlers registered it, each with the expiry of its own response, the later one at or after the expiry of the earlier |
| SpidAcs.SameResponseLater | spid-sp-test/src/main.rs:125-133 | Two successes with one response ID are at least the window apart: one handler registered it no earlier than the window after the reading at which the other passed its last check |
| SpidAcs.LiveEntrySurvives | spid-sp-test/src/main.rs:1358-1402 | No step but the success for an ID or a new store under it removes or changes its live entry, even with a stale clock reading |
| SpidAcsProgress.StepsExactly | spid-sp-test/src/main.rs:519-1402 | In every interleaving a step on a response ends refused exactly when there is a cause: a check that fails at its reading, no ID answered, no live request at the reading of either access, or an ID admitted before and not expired; otherwise it goes on |
| SpidAcsProgress.TableAfterStep | spid-sp-test/src/main.rs:1358-1402 | What each step leaves in the table of pending requests, entry by entry |
| SpidAcsProgress.ReplayAfterStep | spid-sp-test/src/main.rs:120-147 | What each step does to the replay cache and which check it records; the clean-up leaves exactly what has not expired |
| SpidAcsProgress.AcceptedWithoutCause | spid-sp-test/src/main.rs:646-1151 | Whatever other handlers do: a response whose handler never meets a cause for refusal moves one stage on with each of its steps and is accepted with the last one |
| XsDuration.ParseXsDuration | crates/gamlastan-mdq/src/transform.rs:71-122 | The character loop computes the scan that `ParserMeaning` characterises |
| XsDuration.PrintedParses | crates/gamlastan-mdq/src/transform.rs:71-122 | Every printed duration parses to its total number of seconds, if that fits |
| XsDuration.ParserMeaning | crates/gamlastan-mdq/src/transform.rs:71-122 | A text parses to a value exactly when it is a printed duration of that total: number-unit pairs, date units before and time units after at most one `T`, at least one pair, no dangling number |
| XsDuration.DecimalDurationParses | crates/gamlastan-mdq/src/transform.rs:71-122 | Numbers in decimal print, with any digits after a point, parse to the sum of number times unit, if that fits |
| XsDuration.AllFields | crates/gamlastan-mdq/src/transform.rs:64-122 | A duration with all six fields parses to 31536000·years + 2592000·months + 86400·days + 3600·hours + 60·minutes + seconds, if that fits |
| XsDuration.NumberExactly | crates/gamlastan-mdq/src/transform.rs:92-100 | A number is accepted exactly when it is digits with at most one point, before, between or after them, with the value they say |
| XsDuration.PointDivides | crates/gamlastan-mdq/src/transform.rs:92-100 | The value of a number with a point is that of its digits without it, divided by a power of ten |
| XsDuration.ReadingUnique | crates/gamlastan-mdq/src/transform.rs:83-111 | A text has one reading as number-unit pairs around at most one `T` |
| XsDuration.SchemaDurationsAccepted | crates/gamlastan-mdq/src/transform.rs:64-122 | Every unsigned schema duration that fits is accepted, with its total |
| XsDuration.SchemaExactly | crates/gamlastan-mdq/src/transform.rs:64-122 | An accepted text is a schema duration exactly when its reading has units strictly in order, whole numbers except for seconds and no empty time |
| XsDuration.DayBeforeYear | crates/gamlastan-mdq/src/transform.rs:83-111 | `P1D1Y` is accepted and is no schema duration |
| XsDuration.DayTwice | crates/gamlastan-mdq/src/transform.rs:83-111 | `P1D1D` is accepted and is no schema duration |
| XsDuration.EmptyTime | crates/gamlastan-mdq/src/transform.rs:83-111 | `P1DT` is accepted and is no schema duration |
| XsDuration.TrailingTimeMark | crates/gamlastan-mdq/src/transform.rs:85-90 | In general a trailing `T` is accepted and changes nothing |
| MetadataSelection.SelectIsFirstInOrder | crates/gamlastan-mdq/src/verify.rs:86-122 | Selection in nested aggregates gives the first matching entity in document order with the hints of all aggregates around it, none exactly when there is none, an error exactly when an aggregate met before has a bad duration |
| MetadataSelection.PathUntilIsLeast | crates/gamlastan-mdq/src/verify.rs:172-182 | The inherited expiry is the least over the enclosing aggregates |
| MetadataSelection.PathDurationIsLeast | crates/gamlastan-mdq/src/verify.rs:163-170 | The inherited cache duration is the least over the enclosing aggregates |
| MetadataSelection.AcceptedExactly | crates/gamlastan-mdq/src/verify.rs:37-161 | A trusted aggregate is accepted exactly when its first deciding visit is the requested entity with the role and a good duration, and neither it nor any aggregate around it has expired |
| MetadataSelection.AcceptedHints | crates/gamlastan-mdq/src/verify.rs:126-161 | What is accepted carries the least duration and expiry over the entity and all aggregates around it |
| MetadataSelection.EntityExactly | crates/gamlastan-mdq/src/verify.rs:50-60 | A single-entity document is accepted exactly when it is trusted, has the requested ID, the role and a duration that parses, and the clock is before its own expiry; the hints kept are the entity's own |
| MetadataSelection.EntityErrors | crates/gamlastan-mdq/src/verify.rs:126-161 | Which error a single-entity document gives, in the order of the checks |
| MetadataSelection.GroupErrors | crates/gamlastan-mdq/src/verify.rs:61-122 | Which error an aggregate gives: whatever visit in document order decides the search first decides it |
| MetadataSelection.HintExactly | crates/gamlastan-mdq/src/verify.rs:94-97 | A duration hint is none without a text, what the text parses to with one, and an error exactly when it does not parse |
| MdqRequest.PercentEncode | crates/gamlastan-mdq/src/transform.rs:49-62 | The client's own encoder computes the same text as the binding's encoder |
| MdqRequest.RequestPath | crates/gamlastan-mdq/src/transform.rs:27-33 | The address is the server's followed by the coded identifier or the coded mark and digest |
| MdqRequest.LowerHexExactly | crates/gamlastan-mdq/src/transform.rs:36-42 | The digest is written as two digits of the lower-case table for each byte |
| MdqRequest.AddressReads | crates/gamlastan-mdq/src/transform.rs:27-33 | Decoding what follows the server address gives back the identifier, or the mark and the digest in hexadecimal |
| MdqRequest.AddressIdentifies | crates/gamlastan-mdq/src/transform.rs:27-62 | Two entities share the text of a request address exactly when they are the same, or under the SHA-1 transform have the same digest |
| MdqRequest.OneSegment | crates/gamlastan-mdq/src/transform.rs:44-62 | The text any identifier adds to the server address holds no slash, question mark or fragment mark, and is a segment that vanishes on parsing exactly when the identifier is empty, `.` or `..` and is not hashed |
| MdqClient.StaticState.FromFile | crates/gamlastan-mdq/src/client.rs:294-319 | The state after a file was accepted: no address, base backoff |
| MdqClient.StaticState.FromUrl | crates/gamlastan-mdq/src/client.rs:324-355 | The state after the first load of an address, successful or not |
| MdqClient.StaticState.GetStatic | crates/gamlastan-mdq/src/client.rs:435-496 | One undisturbed call: answer and new state for every branch |
| MdqClient.DecideExactly | crates/gamlastan-mdq/src/client.rs:435-473 | A call fetches exactly when there is no good metadata, there is an address and the retry is due; which answer it gives otherwise |
| MdqClient.BackoffSteps | crates/gamlastan-mdq/src/client.rs:490-493 | The waits after failures are 5, 10, 20, 40, 80 and from then on 120 seconds |
| MdqClient.FailingStreak | crates/gamlastan-mdq/src/client.rs:468-495 | After n failed fetches from the base the backoff is min(5·2^n, 120) seconds, and each fetch waited out the backoff before it |
| MdqClient.FetchesAreSpaced | crates/gamlastan-mdq/src/client.rs:468-495 | The j-th fetch of a failing streak comes no sooner after the i-th than the sum of the backoffs in between |
| MdqClient.FetchesInWindow | crates/gamlastan-mdq/src/client.rs:468-495 | Fetches i to j of a failing streak span at least ten seconds each, and two minutes each from the fifth failure on |
| MdqClient.MetadataCache.PurgeExpired | crates/gamlastan/src/metadata/cache.rs:166-168 | Keeps exactly the entries that are still valid |
| MdqClient.MetadataCache.PutBounded | crates/gamlastan/src/metadata/cache.rs:128-150 | Drops expired entries, stores nothing at capacity zero, evicts a least recently fetched entry only when a new ID meets a full cache |
| MdqClient.PutExactly | crates/gamlastan/src/metadata/cache.rs:128-150 | What a put leaves: the new entry, and of the others exactly those not expired, but for one fetched no later than any other when a new ID met a full cache |
| MdqClient.PutKeepsCache | crates/gamlastan/src/metadata/cache.rs:128-150 | The cache stays within capacity and every entry stays admitted for exactly its key by a load judged at its fetch time |
| MdqClient.LookupTotalExactly | crates/gamlastan/src/metadata/cache.rs:54-62 | Looking up an entry computes at all exactly when its hint, or the fallback, fits between the fetch time and the last representable instant |
| MdqClient.LongHintBreaksLookup | crates/gamlastan/src/metadata/cache.rs:54-62 | The hint `P300000Y` is accepted and makes every later lookup of its entry panic |
| MdqClient.StepKeepsInv | crates/gamlastan-mdq/src/client.rs:394-510 | Each step of each caller keeps the invariant on stored metadata, backoff count, cache and answers |
| MdqClient.EveryState | crates/gamlastan-mdq/src/client.rs:394-542 | In every interleaving: stored static metadata is absent or was admitted by a load that was made, the backoff is that of the failed settles since the last success, every cache entry was admitted for its key by a load judged at its fetch time, and every answer was admitted by the caller's own load or, from storage, unexpired at the caller's clock reading |
| MdqClient.LoadsWereMade | crates/gamlastan-mdq/src/client.rs:294-355 | Every load listed in a state is the one that built the client or a load step made earlier in the run, with that document at that clock reading |
| MdqClient.AdmitsMeaning | crates/gamlastan-mdq/src/verify.rs:37-161 | What a load admits was trusted, is the entity asked for with the required role, and at the reading the load was judged by neither its own expiry nor that of any aggregate around it had passed; the expiry kept is the least of these |
| MdqClient.LoadExactly | crates/gamlastan-mdq/src/verify.rs:37-161 | A load succeeds exactly when the network gave a trusted document in which the entity is found, has the role and a duration that parses, and neither it nor anything around it has expired |
| MdqClient.QueryStepExactly | crates/gamlastan-mdq/src/client.rs:394-433 | A query is answered from the cache exactly while its entry is within its lifetime and expiry, and otherwise loads; a success is answered and kept with the document's duration or else the fallback |
| MdqClient.StaticStepExactly | crates/gamlastan-mdq/src/client.rs:435-496 | What each step of a static call does: snapshot, decision at a later reading, load judged at yet another, settling on what is stored then |
| MdqClient.SettleBackoff | crates/gamlastan-mdq/src/client.rs:476-493 | A settled fetch puts the backoff at the base on success and one doubling up on failure |
| MdqClient.StaticNeverForgets | crates/gamlastan-mdq/src/client.rs:476-493 | In every interleaving static metadata that is there once is there ever after, for the same entity |
| MdqClient.ServedFromStorage | crates/gamlastan-mdq/src/client.rs:394-465 | In every interleaving an answer from storage is what was stored at an earlier state of the run, and at the caller's clock reading its expiry, and for a query also the fetch time plus cache duration, lay ahead |
| MdqClient.BuiltWell | crates/gamlastan-mdq/src/client.rs:294-355 | What either constructor builds satisfies the invariant: it stores what the first load accepted, or nothing if that failed and there is an address to retry |
| AuthnBroker.AuthnBroker.Add | crates/gamlastan/src/idp/authn_broker.rs:76-93 | Appends under the next number; a registry built by `add` alone keeps distinct references |
| AuthnBroker.AuthnBroker.AddWithReference | crates/gamlastan/src/idp/authn_broker.rs:97-117 | Appends exactly when the reference is not taken, and keeps references distinct |
| Decimals.DecimalReads | crates/gamlastan/src/idp/authn_broker.rs:83-84 | A printed number reads as itself |
| Decimals.DecimalInjective | crates/gamlastan/src/idp/authn_broker.rs:83-84 | Distinct numbers print differently |
| AuthnBroker.NumberedIsDistinct | crates/gamlastan/src/idp/authn_broker.rs:76-93 | A registry built by `add` alone has pairwise distinct references |
| AuthnBroker.TakenExactly | crates/gamlastan/src/idp/authn_broker.rs:76-117 | After any series of registrations the references taken are exactly those printed and those chosen |
| AuthnBroker.DistinctExactly | crates/gamlastan/src/idp/authn_broker.rs:76-117 | After any series of `add` and `add_with_reference` references are distinct if and only if no chosen one is the print of a number still to come in that series |
| AuthnBroker.ChosenReferenceCollides | crates/gamlastan/src/idp/authn_broker.rs:76-117 | Choosing "1" first makes the first `add` collide |
| AuthnBroker.SeedLevel | crates/gamlastan/src/idp/authn_broker.rs:160-165 | The fold over the class finds its highest level for minimum and better, its lowest for maximum, its first for exact |
| AuthnBroker.WithOthers | crates/gamlastan/src/idp/authn_broker.rs:172-184 | The walk appends, without repeats and in order, the methods of other classes that compare to the level |
| AuthnBroker.AuthnBroker.PickByClassRef | crates/gamlastan/src/idp/authn_broker.rs:139-185 | The result is the selection for the class reference, for both settings of level matching |
| AuthnBroker.AuthnBroker.Pick | crates/gamlastan/src/idp/authn_broker.rs:199-230 | The result is the union without repeats of the selections for the listed class references, or if there are none for the declaration references, or the default selection |
| AuthnBroker.SelectionMeaning | crates/gamlastan/src/idp/authn_broker.rs:130-185 | A method is selected exactly when the class is registered and the method belongs to it or compares to all of its levels as the comparison demands; with level matching, exact also selects the level of the first method of the class |
| AuthnBroker.SelectionUnique | crates/gamlastan/src/idp/authn_broker.rs:139-185 | A registry and a reference have one selection, order included |
| AuthnBroker.PickMeaning | crates/gamlastan/src/idp/authn_broker.rs:217-229 | The result has no duplicates and holds exactly the methods that answer one of the listed references, for both settings of level matching |
| AuthnBroker.LongerListExtends | crates/gamlastan/src/idp/authn_broker.rs:217-229 | The result for a list of references is a prefix of the result for every longer list |
| AuthnBroker.UnknownChangesNothing | crates/gamlastan/src/idp/authn_broker.rs:217-229 | A reference nobody registered, anywhere in the list, changes nothing |
| AuthnBroker.DefaultIsEmptyExactly | crates/gamlastan/src/idp/authn_broker.rs:199-209 | With nothing requested the result is empty exactly for an empty registry |
| AuthnBroker.DefaultMeaning | crates/gamlastan/src/idp/authn_broker.rs:199-209 | With nothing requested everything is offered, unless the unspecified class is registered: then its methods and those at least as strong as all of them |
| AuthnBroker.DistinctRefsKeepAll | crates/gamlastan/src/idp/authn_broker.rs:172-184 | With distinct references no method of another class is dropped as a repeat |
| AttributeMap.AttributeConverter.AddWireToLocal | crates/gamlastan/src/attribute_map/mod.rs:196-198 | Changes one inbound entry and nothing outbound |
| AttributeMap.AttributeConverter.AddLocalToWire | crates/gamlastan/src/attribute_map/mod.rs:203-205 | Changes one outbound entry and nothing inbound |
| AttributeMap.AttributeConverter.AddDirections | crates/gamlastan/src/attribute_map/mod.rs:157-170 | Builds each direction from its own list, a later entry for the same folded key winning |
| AttributeMap.EntriesMeaning | crates/gamlastan/src/attribute_map/mod.rs:157-170 | Each direction maps a folded key to what the last entry for it says, and nothing else |
| AttributeMap.ToLocal | crates/gamlastan/src/attribute_map/mod.rs:351-370 | The loop computes the merge that `MergeConserves` characterises |
| AttributeMap.FromLocal | crates/gamlastan/src/attribute_map/mod.rs:377-412 | The loop sends each local attribute as its wire name, verbatim, or not at all |
| AttributeMap.FiledExactly | crates/gamlastan/src/attribute_map/mod.rs:288-314 | A received attribute is filed under the name that the first converter of its format has for its folded name, without a format the first converter that has one, or else its friendly name, or else its own if unknown names are allowed |
| AttributeMap.SentExactly | crates/gamlastan/src/attribute_map/mod.rs:377-412 | A local attribute is sent under the wire name the first converter of the format has for its folded name, or else verbatim if unknown names are allowed |
| AttributeMap.MergeConserves | crates/gamlastan/src/attribute_map/mod.rs:351-370 | Each name once, in order of first appearance, with the in-order concatenation of all values filed under it; no value is lost or duplicated |
| AttributeMap.SentComesBack | crates/gamlastan/src/attribute_map/mod.rs:299-314 | A sent attribute is filed under its own name again exactly when the maps say so, with its values unchanged |
| AttributeMap.ComesBackExactly | crates/gamlastan/src/attribute_map/mod.rs:288-412 | A name comes back exactly when what it is sent as is filed under it, both read off the maps |
| AttributeMap.ReturnedMeaning | crates/gamlastan/src/attribute_map/mod.rs:351-412 | Before merging, the same list comes back exactly when every name does |
| AttributeMap.MergedMeaning | crates/gamlastan/src/attribute_map/mod.rs:351-370 | Merging leaves a list alone exactly when its names are distinct, and otherwise shortens it |
| AttributeMap.RoundTripExactly | crates/gamlastan/src/attribute_map/mod.rs:351-412 | Converting out and back gives the same list if and only if names are distinct and each comes back, for both settings of unknown attributes |
| AlgorithmPolicy.NormalizedAlgorithms | crates/gamlastan/src/crypto/config.rs:69-78 | Sorting and then dropping consecutive repeats gives the normal form |
| AlgorithmPolicy.NormalizedMeaning | crates/gamlastan/src/crypto/config.rs:69-78 | The normal form is strictly ascending and has the same members |
| AlgorithmPolicy.AscendingIsCanonical | crates/gamlastan/src/crypto/config.rs:69-78 | Two strictly ascending lists with the same members are equal |
| AlgorithmPolicy.LessExactly | crates/gamlastan/src/crypto/config.rs:69-78 | The order of the lists is that of dictionaries |
| AlgorithmPolicy.BuiltIsNormal | crates/gamlastan/src/crypto/config.rs:98-154 | Every series of builders gives normal lists |
| AlgorithmPolicy.BuiltAccepts | crates/gamlastan/src/crypto/config.rs:98-154 | A built policy accepts of each kind the members of the list given last for that kind, or everything if none was given |
| AlgorithmPolicy.SameAcceptanceSameList | crates/gamlastan/src/crypto/config.rs:167-178 | Two normal lists that accept the same URIs are equal, and no finite list accepts what the unrestricted one does |
| AlgorithmPolicy.EqualExactlyWhenSame | crates/gamlastan/src/crypto/config.rs:60-182 | Two built policies are equal exactly when they accept the same signature and digest URIs |
| SignaturePolicy.OnlyChildFound | crates/gamlastan/src/crypto/verifier.rs:29-48 | The child is found exactly when it is the one XML-DSig child of that name |
| SignaturePolicy.SignatureMeaning | crates/gamlastan/src/crypto/verifier.rs:64-100 | A signature passes exactly when it has one SignedInfo with one allowed SignatureMethod and one allowed DigestMethod per direct Reference |
| SignaturePolicy.AllSignaturesMeaning | crates/gamlastan/src/crypto/verifier.rs:102-127 | With a policy that is not skipped the all-signatures check passes exactly when every XML-DSig Signature in the tree is good |
| SignaturePolicy.EnvelopedExactly | crates/gamlastan/src/crypto/verifier.rs:102-127 | For every document, setup and selection: the check passes exactly when it is skipped, there is no document element, every XML-DSig Signature is good, or for the first-signature check there is none or the first in document order is good |
| SignaturePolicy.FirstSignatureMeaning | crates/gamlastan/src/crypto/verifier.rs:102-127 | The first-signature check passes exactly when no position of the tree has an XML-DSig Signature or the one at the first such position is good, and its outcome is that of this signature |
| SignaturePolicy.SignatureErrors | crates/gamlastan/src/crypto/verifier.rs:64-87 | Which error a signature gives up to its method |
| SignaturePolicy.ReferenceErrors | crates/gamlastan/src/crypto/verifier.rs:89-97 | Which error the first bad Reference gives |
| SignaturePolicy.AllImpliesFirst | crates/gamlastan/src/crypto/verifier.rs:102-127 | Passing for all signatures implies passing for the first; when either passes is `EnvelopedExactly` |
| SignaturePolicy.WiderPolicyAccepts | crates/gamlastan/src/crypto/verifier.rs:64-127 | Enlarging either allowlist never turns acceptance into rejection |

## Left out

- RedirectBinding.RedirectEncode: the caller strips the top-level `ds:Signature`; the model encodes the XML it is given, as the code does.
- PostBinding.PostEncode: the fixed markup before the action address and after the hidden fields is a parameter; the markup of the fields and of the end of the address is concrete.
- MdqClient.EveryState: the sum of fetch time and duration in a lookup is a sum of unbounded numbers; where the source's panics is stated by `LookupTotalExactly`, and what a panicking caller leaves behind is not modelled.
- RedirectGuarantees.DestinationServesExactly: a user agent may also percent-encode further bytes of a destination's query; that is not modelled.
- MdqClient.FailingStreak: says nothing about overlapping calls, which can each start a fetch from the same snapshot; `EveryState` covers those.
- SpidAcs.NoReplayedSuccess: relies on a wall clock that does not go back, because the replay cache compares expiries with it.
- XsDuration.ParseXsDuration: numbers are exact, so floating-point rounding is not modelled.
- DEFLATE, SHA-1, signing, signature verification and XML parsing are parameters with stated laws; documents are abstract trees, and the trust decision on a metadata document is a parameter.
- Error message texts; only which error is returned is modelled.
- The 32-bit level and the machine-word counter of the broker are unbounded numbers.
- Unicode lowercase tables: folding is any function.
- Generated IDs are chosen by the environment; no theorem assumes that they are fresh.
- The outcome of the policy check and the response construction after the take in the example IdP is an arbitrary reply; sessions, cookies and the session-reuse path are left out.
- The validations of the SPID assertion consumer are arbitrary lists of clock-dependent checks, one list before the pending lookup and one after it.
- `local_name_via_converters`, the shipped attribute maps and the structured attribute values: data, or a special case of the lookup that is modelled.
- Web handlers, TLS, files, environment, logging, HTTP transport with its size cap and permits.
