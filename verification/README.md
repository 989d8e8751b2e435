# Models and proofs for the HLASM language server

The modules here model the parts of the language server and of its client in which much depends on
exact behaviour, and prove what these parts promise:

- **URIs** (`Basics`, `Encoding`, `EncodingLaws`, `EncodingAlphabets`, `UriSyntax`, `UriLaws`, `UriAlphabets`,
  `PathTokens`, `PathPieces`, `NormalizePath`, `NormalizeLaws`, `RemoveDots`, `RemoveDotsLaws`,
  `ResourceLocation`, `EncodedPaths`, `ResourceLaws`, `PlainLocations`, `RelativeLaws`, `ResourceForms`):
  percent-coding, dissection and recomposition, the two path normalizers, normal forms, relative forms and
  joining. Strings stand for byte sequences: every character is
  one `char` of C++.
- **Text** (`Utf8`, `Sanitizers`, `Readings`, `Utf8Substr`, `CharsetTables`, `Charset`, `CharsetReadings`,
  `StreamingConvertor`, `ConvertedRecords`): the byte-scanning loops over UTF-8 and EBCDIC, compared with
  definitions on code points. `Readings` says what arbitrary bytes are: characters, and stray bytes at which no
  character begins.
- **Framing** (`Framing`, `Deframer`, `FramingLaws`): messages behind `Content-Length` headers, read from a
  stream or cut out of chunks.
- **Scheduling** (`Scheduler`, `SchedulerLaws`, `SchedulerSafety`, `SchedulerTurns`, `WorkspaceManager`): the work
  queue of the workspace manager with its parse tasks.
- **Concurrency** (`BlockingQueue`, `ExternalReader`, `ConnectionPool`): threads that interleave at locks and
  atomics, and asynchronous calls that interleave at their awaits.

Loops and objects of the sources are methods and classes proved against specification functions; the laws
are lemmas about these functions. What a function decides is stated a second time without it: against the
alphabets and constants that the sources list, against a definition of another shape, or as what every run
does. The scheduler and the concurrent parts are state machines: `Step` is one
decision of the code or one event from outside, a run is a sequence of steps, and the safety lemmas speak
about every run. `WorkspaceManager.Manager` has the fields and loops of the original; each call of its
handler is proved to be one complete call of the state machine.

## Where the code differs from what one might expect

Each of these is proved: the exact condition for all inputs or all runs, and an input or a run on which the
expected property fails.

- `lexically_normal` is idempotent on every text that dissects once its backslashes are replaced. Otherwise it
  depends on the first resolved name: a second call changes nothing if and only if that name makes the text no
  URI, or makes it one with a lower-case scheme and a path that is normal and encoded already
  (`PlainLocations.LexicallyNormalTwiceIff`). Being accepted by `dissect_uri` is not enough: a host may hold
  backslashes (`ResourceLaws.AcceptedNotNormalTwice`), but it is the only part that may
  (`PlainLocations.AcceptedBackslashes`).
- The way back along a relative form misses if and only if 32768 or more names of the base have to be left,
  because the counter is an `int16_t` (`RelativeLaws.RelativeArrives`, `RelativeLaws.DeepBaseIsNotLeft`).
- `percent_encode_path_and_ignore_utf8` is idempotent only on texts whose raw bytes are well-formed UTF-8
  (`EncodingLaws.EncodedTwice`, `EncodingLaws.StrayByteEncodedTwice`).
- `remove_dot_segments` departs from section 5.2.4 of RFC 3986 exactly on paths that end in a dot segment when
  the last segment kept before it is empty or ends in a backslash (`RemoveDots.RemovedIsRfc`,
  `RemoveDots.DoubledSlashDiffers`). It leaves a dot segment exactly when that last segment is `.\` or `..\`
  (`RemoveDots.DotSegmentLeftIff`, `RemoveDots.DotUncovered`).
- On an absolute path the two normalizers agree if and only if the pieces that `remove_dot_segments` keeps are
  the names that `normalize_path` resolves, and a dot at the end belongs to a dot segment
  (`RemoveDotsLaws.NormalizersAgreeIff`): `normalize_path` appends a slash after any final name that ends in a
  dot (`RemoveDotsLaws.NormalizersDiffer`), and takes a backslash for a separator
  (`RemoveDotsLaws.BackslashDiffers`).
- Of two absolute paths joined one after the other the first leaves no trace if and only if the base is no URI or
  the path can stand in it: without `?`, `#` and foreign characters, and without a leading `//` when there is no
  authority (`ResourceForms.AbsoluteAbsorbs`, `ResourceForms.QueryStays`). Joined to a text that is no URI, an
  absolute path ends up behind a lone colon (`ResourceForms.JoinAbsoluteToPlain`).
- A URI without a path and without backslashes is its own normal form, even with capitals in its scheme
  (`ResourceForms.NormalOfEmptyPath`).
- With IBM278 a euro sign does not survive `from` and `to`, and a currency sign does not survive `to` and
  `from` (`Charset.FromThenToIsIdentity`, `Charset.ToThenFromIsIdentity`, `Charset.SignsLost`).
- `FBStreamingConvertor.write` loses the pending bytes when a chunk does not complete their record
  (`StreamingConvertor.StreamIsBatchIff`, `StreamingConvertor.ShortWriteLoses`).
- Written messages are read back if and only if each has between 1 and 2^30 bytes
  (`FramingLaws.WrittenIsDeliveredIff`); others are refused (`FramingLaws.OtherSizesRefused`).
- `parsing_done` is reset by file changes only, so a query may meet files that a change of settings in the
  same call has marked for parsing (`SchedulerSafety.QueryMeetsMarkedFiles`). The backlog of a live query is
  empty if and only if no action has marked a file since it was last found empty
  (`SchedulerSafety.LiveQueryAfterDrain`), and in that time only an opening, a closing or a change of settings
  can mark one (`SchedulerSafety.MarkingKinds`).
- No run of `blocking_queue` loses a wakeup if and only if the queue is made for one reader (`BlockingQueue.NoWakeupLostIff`,
  `BlockingQueue.TwoReadersLoseWakeup`).
- `ConnectionPool` reads the generation one await after it has the client: `closeClients` in between is missed,
  for pooled and for fresh clients (`ConnectionPool.OldClientReturns`, `ConnectionPool.FreshClientReturns`).
  What decides is whether anything closed the pool after the generation was read
  (`ConnectionPool.ReturnsToPoolIff`).
- After a failed action, clients left in the pool have no timer (`ConnectionPool.IdleClientWithoutTimer`).
  Pooled clients are without a timer if and only if a call has started since the last client came back
  (`ConnectionPool.PooledWithoutTimerIff`).
- A response handler may still run after its thread has unregistered
  (`ExternalReader.HandledAfterUnregistering`), if and only if another thread held it at that moment
  (`ExternalReader.CalledAfterUnregisteringIff`).

Two more remarks, which need no proof. `utf8_resize` does not use its template parameter `validate`, so the
model of it has none. Nothing in the repository sets the flag `workspace_removed` that `idle_handler` tests; the
model lets it be set for any queued items between two calls.

## Model

| member | source | states |
|---|---|---|
| Utf8.BuildPrefixTable | utils/src/unicode_text.cpp:35-57 | the table built from the eight ranges has exactly the bits the lookup is specified by |
| Utf8.ValidPrefixMeansRfc3629 | utils/src/unicode_text.cpp:35-57 | the lookup accepts exactly the first two bytes of section 4 of RFC 3629 |
| Utf8.CombinedBitsAreTheScalar | utils/src/unicode_text.cpp:59-106 | the bits collected from a character are the scalar value it encodes |
| Utf8.EncodeDecodes | utils/src/unicode_text.cpp:21-57 | every sequence of scalar values is read back from its encoding |
| Utf8.WellFormedFront | utils/src/unicode_text.cpp:134-165 | scanning character by character decides well-formedness |
| Sanitizers.ReplaceNonUtf8Chars | utils/src/unicode_text.cpp:134-165 | the loop computes the replacement; `Readings.ReplacedReads` says what it is on every input |
| Sanitizers.ReplacedIsWellFormed | utils/src/unicode_text.cpp:134-165 | the result is well-formed UTF-8 and at most three times as long, for every input |
| Sanitizers.ReplacedIsRepair | utils/src/unicode_text.cpp:134-165 | the identity exactly on well-formed text, and idempotent |
| Readings.ReplacedReads | utils/src/unicode_text.cpp:134-165 | for all bytes: the result decodes to the characters of the text with U+FFFD for every stray byte, and is two bytes longer for each of them |
| Readings.ReplacedAroundStray | utils/src/unicode_text.cpp:134-165 | a stray byte behind well-formed text becomes U+FFFD, and the rest is replaced on its own |
| Readings.ReadingExists | utils/src/unicode_text.cpp:134-165 | all bytes read as characters and stray bytes, at which no encoded scalar value begins |
| Readings.ReadingIsOne | utils/src/unicode_text.cpp:134-165 | and in one way only |
| Sanitizers.AppendUtf8Sanitized | utils/src/unicode_text.cpp:59-106 | what is appended, and `no` is reported exactly when the text is appended unchanged, which is exactly when it is well-formed and presentable |
| Sanitizers.SanitizedIsPresentable | utils/src/unicode_text.cpp:59-106 | the appended text is well-formed, without control characters and noncharacters |
| Sanitizers.SanitizedIdentity | utils/src/unicode_text.cpp:59-106 | unchanged if and only if well-formed and presentable |
| Sanitizers.SanitizedIdempotent | utils/src/unicode_text.cpp:59-106 | sanitizing twice is sanitizing once |
| Readings.SanitizedReads | utils/src/unicode_text.cpp:59-106 | for all bytes: the characters outside 0x00-0x1F, 0x7F-0x9F without 0x80-0x8C, and the noncharacters are kept; of all others, and of stray bytes, every byte is shown |
| Readings.ShownIs | utils/src/unicode_text.cpp:94-100 | a byte is shown as its high and its low digit of `0123456789ABCDEF` in angle brackets |
| Utf8Substr.SubstrStep | utils/src/unicode_text.cpp:168-203 | on validated or well-formed text the prefix passed over has exactly the counted code points and UTF-16 units; it stops early only at the end or at a byte no character starts with; without validation it walks by announced sizes |
| Utf8Substr.Utf8SubstrBytes | utils/src/unicode_text.cpp:212-229 | on well-formed text the encoding of the code-point slice with exact counts, empty past the end; throws only on malformed text; without validation the slice by announced sizes, whatever the text |
| Utf8Substr.Utf8Resize | utils/src/unicode_text.cpp:234-242 | on well-formed text exactly `count` code points for an ASCII pad, the leading ones kept; on other text the cut or the padding by announced sizes |
| Utf8Substr.Lengths | utils/src/unicode_text.cpp:247-281 | both lengths of the decoded text; with validation it throws exactly on malformed text, without it counts by announced sizes |
| Utf8Substr.WalkStopsAtStray | utils/src/unicode_text.cpp:168-203 | without validation a byte that starts nothing is counted for every character still asked for and never passed |
| Utf8Substr.WellFormedSliceWalks | utils/src/unicode_text.cpp:212-229 | on well-formed text announced sizes never overstep the end |
| Utf8Substr.LengthsAdd | utils/src/unicode_text.cpp:247-281 | both lengths add over concatenation |
| Utf8Substr.SizesByPattern | utils/src/unicode_text.cpp:21-33 | the announced sizes go by the leading bits of the first byte |
| Encoding.GetAlreadyEncodedSize | utils/src/encoding.cpp:62-90 | the number of leading `%XX` groups that spell one well-formed character |
| Encoding.HasPercentsInPlace | utils/src/encoding.cpp:26-35 | every group begins with a percent sign |
| Encoding.TryToParseEncoded | utils/src/encoding.cpp:92-109 | copies that character with upper-case digits and shortens the view by it |
| Encoding.PercentEncodePathAndIgnoreUtf8 | utils/src/encoding.cpp:218-236 | the loop computes the encoding the laws speak about |
| EncodingLaws.EncodedTwice | utils/src/encoding.cpp:218-236 | encoding twice is encoding once if and only if the bytes are well-formed UTF-8 |
| EncodingLaws.StrayByteEncodedTwice | utils/src/encoding.cpp:218-236 | the byte 0xFF is a text that encoding changes twice |
| EncodingLaws.PercentDecode | utils/src/encoding.cpp:189-216 | the decoded text, empty when a percent sign is not followed by two digits |
| EncodingLaws.PercentEncode | utils/src/encoding.cpp:160-187 | both byte-wise encoders; the rows of `EncodingAlphabets` say which characters they keep and what they write for the others |
| EncodingLaws.DecodingUndoesEncoding | utils/src/encoding.cpp:160-216 | decoding gives back every byte string after either encoder, with slashes for backslashes in a path |
| EncodingAlphabets.PushedChar | utils/src/encoding.cpp:110-158 | exactly letters, digits and `-._~`, in a path also `/*?`, are kept; any other byte becomes `%` with two digits of `0123456789ABCDEF` |
| EncodingAlphabets.EncodedInAlphabet | utils/src/encoding.cpp:160-187 | whatever is encoded, only these characters come out, and `%` with two such digits behind it |
| EncodingAlphabets.ComponentIsSegment | utils/src/encoding.cpp:176-187 | an encoded component holds no slash, backslash, `?`, `*`, `#`, `:` or `@` |
| EncodingAlphabets.EncodedUnchangedIff | utils/src/encoding.cpp:160-187 | either encoder leaves a text alone if and only if it holds these characters only, a backslash of a path counting as a slash |
| EncodingAlphabets.EncodedPathInAlphabet | utils/src/encoding.cpp:218-236 | the same alphabet for the encoder that keeps spelled characters |
| EncodingAlphabets.EncodingKeepsMeaning | utils/src/encoding.cpp:189-236 | its result decodes to what the text stands for: spelled characters as their bytes, a backslash as a slash |
| EncodingAlphabets.SpelledIsKept | utils/src/encoding.cpp:218-236 | every well-formed text that is spelled out in groups is kept as it is |
| EncodingAlphabets.EncodedWithoutGroups | utils/src/encoding.cpp:160-236 | without a percent sign both path encoders agree |
| EncodingAlphabets.DecodableIff | utils/src/encoding.cpp:189-216 | decoding fails if and only if some percent sign is not followed by two hexadecimal digits of either case |
| EncodingAlphabets.HexValueIs | utils/src/encoding.cpp:114-142 | the digits of both cases and their values |
| EncodedPaths.EncodedIsValid | utils/src/encoding.cpp:218-236 | whatever is encoded is a valid path, query or fragment |
| EncodedPaths.EncodedPathText | utils/src/resource_location.cpp:318-326 | encoding a path encodes its names and keeps its slashes |
| EncodedPaths.EncodedNormalNames | utils/src/resource_location.cpp:318-326 | encoding keeps a normal path normal |
| UriSyntax.IsValid | utils/src/path_conversions.cpp:182-200 | the index loop decides validity with percent groups |
| UriSyntax.ValidateOrReset | utils/src/path_conversions.cpp:202-257 | keeps exactly the accepted values |
| UriAlphabets.InClassIff | utils/src/path_conversions.cpp:113-174 | the table lookup accepts exactly the listed characters |
| UriAlphabets.ValidTextIff | utils/src/path_conversions.cpp:182-200 | a text is valid if and only if every character is listed or begins a percent group |
| UriAlphabets.AcceptedIff | utils/src/path_conversions.cpp:202-257 | what is accepted, part by part and character by character |
| UriSyntax.DissectUri | utils/src/path_conversions.cpp:260-347 | computes the dissection |
| UriSyntax.DissectAuthority | utils/src/path_conversions.cpp:293-342 | user info, host and port, with brackets; reset on a broken bracket |
| UriSyntax.ReconstructUri | utils/src/path_conversions.cpp:390-430 | appends the text of section 5.3 of RFC 3986 |
| UriSyntax.ReconstructUriSize | utils/src/path_conversions.cpp:349-388 | the exact length of that text |
| UriLaws.DissectedTextReturns | utils/src/path_conversions.cpp:260-430 | printing what was dissected gives the text back, and the value is well-formed |
| UriLaws.PrintedDissects | utils/src/path_conversions.cpp:260-430 | dissecting what was printed gives every well-formed value back |
| UriLaws.DissectInvertsText | utils/src/path_conversions.cpp:260-430 | a text dissects into a value if and only if the value is well-formed and prints as the text |
| UriAlphabets.FullDissects | utils/src/path_conversions.cpp:260-347 | a URI with user info, port, query and fragment, spelled with its delimiters, dissects into these parts |
| UriAlphabets.PlainDissects | utils/src/path_conversions.cpp:260-347 | so does one of scheme and path only |
| PathTokens.UriPathIterator.constructor | utils/src/resource_location.cpp:124-127 | the iterator starts with all elements of the path ahead |
| PathTokens.UriPathIterator.Next | utils/src/resource_location.cpp:162-199 | one element of the rest becomes the current one |
| PathTokens.TokensOfAbs | utils/src/resource_location.cpp:162-199 | the elements of an absolute path are its root, its names and the mark of a final slash |
| PathTokens.SegmentsAreNames | utils/src/resource_location.cpp:162-199 | every text yields names, then the mark of a final slash |
| NormalizePath.UriAppend | utils/src/resource_location.cpp:95-109 | appends with one slash in between, as `ResourceForms.AppendedIs` spells out |
| NormalizePath.NormalizeElements | utils/src/resource_location.cpp:202-236 | the element loop with its stack |
| NormalizePath.NormalizePathOf | utils/src/resource_location.cpp:202-248 | computes the normalized path |
| NormalizePath.ResolvedIsSettled | utils/src/resource_location.cpp:202-248 | no dot names are left, but for one leading `..` of a relative path |
| NormalizePath.StackResolves | utils/src/resource_location.cpp:206-236 | the stack of the code is the resolution of the names behind the root |
| NormalizeLaws.NormalizedElements | utils/src/resource_location.cpp:202-248 | the normalized path is the text of the resolved names, with a slash when the path ended in one or in a dot |
| NormalizeLaws.DotDropped | utils/src/resource_location.cpp:206-236 | a `.` has no effect anywhere |
| NormalizeLaws.NameCancelled | utils/src/resource_location.cpp:206-236 | a name and the `..` behind it cancel each other anywhere |
| NormalizeLaws.DotsInFront | utils/src/resource_location.cpp:206-236 | `..` has no effect at the root; in front of a relative path it stays, and two of them cancel each other |
| NormalizeLaws.NormalizedIsNormal | utils/src/resource_location.cpp:202-248 | every result is the text of normal names, absolute exactly when the path was |
| NormalizeLaws.NormalizedTwice | utils/src/resource_location.cpp:202-248 | normalizing twice is normalizing once |
| RemoveDots.RemoveDotSegments | utils/src/resource_location.cpp:505-553 | the loop and its element stack |
| RemoveDots.LoopIsRfc | utils/src/resource_location.cpp:505-553 | the element stack refines the output buffer of the standard |
| RemoveDots.RemovedIsRfc | utils/src/resource_location.cpp:505-553 | the result is that of section 5.2.4 of RFC 3986 unless the path ends in a dot segment and the last segment kept before it is empty or ends in a backslash, and only then not |
| RemoveDots.DoubledSlashDiffers | utils/src/resource_location.cpp:505-553 | `//.` is a path on which they differ |
| RemoveDots.UndoubledIsRfcIff | utils/src/resource_location.cpp:505-553 | on a path without empty segments they differ exactly when that last segment ends in a backslash |
| RemoveDots.DotSegmentLeftIff | utils/src/resource_location.cpp:505-553 | for every path: a dot segment is left if and only if the path ends in one and the last segment kept before it is `.\` or `..\` |
| RemoveDots.DotUncovered | utils/src/resource_location.cpp:505-553 | `/.\/.` becomes `/./` |
| RemoveDotsLaws.CleanRemovedIsRfc | utils/src/resource_location.cpp:505-553 | on every path without empty segments and backslashes it is the algorithm of the standard; `RemoveDots.RemovedIsRfc` covers the others |
| RemoveDotsLaws.NoDotSegmentLeft | utils/src/resource_location.cpp:505-553 | on every path without backslashes the element iterator meets no `.` and no `..` afterwards; `RemoveDots.DotSegmentLeftIff` covers the others |
| RemoveDotsLaws.NormalizersAgreeIff | utils/src/resource_location.cpp:202-553 | for every absolute path: both normalizers agree if and only if the kept pieces are the resolved names, and a dot at the end belongs to a dot segment |
| RemoveDotsLaws.NormalizersAgree | utils/src/resource_location.cpp:202-553 | on a clean absolute path this means: its last segment is `.` or `..` or does not end in a dot |
| RemoveDotsLaws.NormalizersDiffer | utils/src/resource_location.cpp:202-553 | `/a.` is a path on which they differ |
| RemoveDotsLaws.BackslashDiffers | utils/src/resource_location.cpp:202-553 | `/a\b` is another one: a backslash separates names for one of them only |
| ResourceLocation.LexicallyNormalOf | utils/src/resource_location.cpp:279-327 | computes the normal form; `ResourceForms.NormalKeepsParts` says what it is, part by part |
| ResourceLocation.LexicallyRelativeOf | utils/src/resource_location.cpp:329-386 | computes the relative form |
| ResourceLocation.MismatchIterators | utils/src/resource_location.cpp:338-348 | both iterators stop where the element sequences part |
| ResourceLocation.CountDirs | utils/src/resource_location.cpp:350-364 | the 16-bit counter over the rest of the base |
| ResourceLocation.JoinOf | utils/src/resource_location.cpp:396-422 | computes the joined location; `ResourceForms.JoinUri`, `ResourceForms.JoinAbsolute`, `ResourceForms.JoinAbsoluteToPlain`, `ResourceForms.JoinRelative` and `ResourceForms.JoinRelativeToPlain` say what it is in each of the five cases |
| ResourceForms.LowerCharIs | utils/src/resource_location.cpp:301-304 | each capital becomes the small letter at its place in the alphabet, and nothing else changes |
| ResourceForms.NormalKeepsParts | utils/src/resource_location.cpp:279-327 | the normal form of a URI dissects into the same authority, query and fragment, the scheme letter by letter in small letters, and the normalized and encoded path |
| ResourceForms.NormalOfEmptyPath | utils/src/resource_location.cpp:296-297 | a URI without a path and without backslashes stays as it is |
| ResourceForms.NormalHoldsNoBackslash | utils/src/resource_location.cpp:284-294 | no normal form holds a backslash |
| ResourceForms.JoinUri | utils/src/resource_location.cpp:398-399 | joined to whatever base, a URI is the result |
| ResourceForms.JoinAbsolute | utils/src/resource_location.cpp:400-406 | an absolute path replaces the path of a URI: the result dissects into the same value with that path |
| ResourceForms.JoinAbsoluteToPlain | utils/src/resource_location.cpp:402-405 | joined to a text that is no URI it stands behind a lone colon |
| ResourceForms.AppendedIs | utils/src/resource_location.cpp:95-109 | one slash stands between both texts, whatever stood at the end of one and at the start of the other |
| ResourceForms.JoinRelative | utils/src/resource_location.cpp:407-415 | any other text goes behind the path of a URI |
| ResourceForms.JoinRelativeToPlain | utils/src/resource_location.cpp:416-421 | and behind a text that is no URI |
| ResourceForms.AbsoluteAbsorbs | utils/src/resource_location.cpp:396-406 | of two absolute paths joined one after the other the second alone counts, if and only if the base is no URI or the first can stand for its path |
| ResourceForms.QueryStays | utils/src/resource_location.cpp:396-406 | `/?` joined to `ab:/` is a path that leaves its query behind |
| ResourceLaws.NormalPartsWellFormed | utils/src/resource_location.cpp:279-327 | the recomposed value is well-formed, so it dissects into the same parts |
| ResourceLaws.LexicallyNormalTwice | utils/src/resource_location.cpp:279-327 | the normal form of a URI is its own normal form |
| PlainLocations.LexicallyNormalTwiceIff | utils/src/resource_location.cpp:279-327 | for every text: a second call changes nothing if and only if the text dissects once its backslashes are replaced, or its first resolved name makes it no URI, or makes it one with a lower-case scheme and a path normal and encoded already |
| PlainLocations.PlainReadsAs | utils/src/resource_location.cpp:279-327 | a normalized path reads as the URI that its first resolved name spells, if any |
| PlainLocations.NormalizedFixedIff | utils/src/resource_location.cpp:202-248 | normalizing leaves a path alone if and only if its own names are normal |
| PlainLocations.EncodedFixedIff | utils/src/encoding.cpp:218-236 | encoding leaves a text alone if and only if it holds only plain characters and upper-case groups that spell characters |
| PlainLocations.AcceptedBackslashes | utils/src/resource_location.cpp:279-327 | an accepted URI holds backslashes only in its host; without them its normal form is normal |
| ResourceLaws.AcceptedNotNormalTwice | utils/src/resource_location.cpp:279-327 | an accepted URI, with backslashes in its host, whose normal form changes again |
| RelativeLaws.ElementsOfLocation | utils/src/resource_location.cpp:329-348 | what a location is compared by: the root, the authority, its names |
| RelativeLaws.RelativeOf | utils/src/resource_location.cpp:329-386 | the relative form in terms of the names of both locations |
| RelativeLaws.JoinedForm | utils/src/resource_location.cpp:396-422 | joining a relative form puts its names behind those of the base |
| RelativeLaws.NormalOfJoined | utils/src/resource_location.cpp:279-327 | normalizing the joined location resolves its names |
| RelativeLaws.RelativeArrives | utils/src/resource_location.cpp:329-422 | relative form, join and normalization lead back to the location, up to a final slash, if and only if fewer than 32768 names of the base have to be left |
| RelativeLaws.DeepBaseIsNotLeft | utils/src/resource_location.cpp:329-422 | from a base of 32768 names the root location is not reached |
| ResourceForms.SchemesDiffer | utils/src/resource_location.cpp:335-343 | between URIs with different schemes there is no relative form |
| ResourceForms.OtherFront | utils/src/resource_location.cpp:335-343 | nor between texts that differ up to the first colon |
| ResourceForms.CounterIsDepth | utils/src/resource_location.cpp:350-360 | the counter is the number of names of the rest of the base less that of its `..`, in 16 bits |
| ResourceForms.NoWayFromAbove | utils/src/resource_location.cpp:350-363 | when that number is negative there is no relative form |
| Framing.OutputStream.WriteMessage | language_server/src/base_protocol_channel.cpp:37-52 | the framed message is appended while the stream is good |
| Framing.InputStream.ReadWord | language_server/src/stream_helper.cpp:23-35 | extraction with newline as the only white space, with both stream flags |
| Framing.InputStream.ReadHeaders | language_server/src/base_protocol_channel.cpp:58-111 | the header loop, up to the empty line or the end of the stream |
| Framing.InputStream.ReadMessage | language_server/src/base_protocol_channel.cpp:58-140 | one message is delivered, one refused, or the stream has ended, and what then stands in the output buffer |
| Framing.InputStream.ReadAll | language_server/src/base_protocol_channel.cpp:142-173 | all messages up to the end of the stream, for every stream |
| Framing.FromDecimal | language_server/src/base_protocol_channel.cpp:47-91 | a written length is read back |
| FramingLaws.ReadFramed | language_server/src/base_protocol_channel.cpp:37-140 | one written message is read back, and the stream stands right behind it |
| FramingLaws.WrittenIsDelivered | language_server/src/base_protocol_channel.cpp:37-140 | every list of messages of 1 to 2^30 bytes comes back as it was written |
| FramingLaws.WrittenIsDeliveredIff | language_server/src/base_protocol_channel.cpp:37-173 | a list of messages comes back as it was written if and only if each has 1 to 2^30 bytes |
| FramingLaws.WireFormat | language_server/src/base_protocol_channel.cpp:33-52 | the bytes of a message, spelled out |
| FramingLaws.DecimalIs | language_server/src/base_protocol_channel.cpp:47 | the length is written in decimal digits |
| FramingLaws.TruncatedEnds | language_server/src/base_protocol_channel.cpp:58-140 | of a message that is cut off anywhere nothing is delivered, and the stream has ended |
| FramingLaws.OtherSizesRefused | language_server/src/base_protocol_channel.cpp:113-124 | messages of other sizes are refused |
| FramingLaws.OtherHeaderIgnored | language_server/src/base_protocol_channel.cpp:77-111 | other headers have no effect |
| FramingLaws.LastLengthCounts | language_server/src/base_protocol_channel.cpp:77-97 | of several lengths the last one counts, whatever follows its digits |
| FramingLaws.BadLengthIgnored | language_server/src/base_protocol_channel.cpp:77-97 | a length that is no number or does not fit into 64 bits leaves the one before |
| Deframer.StdinHandler.DataEventHandler | language_server/src/emscripten_server_streams.cpp:136-162 | the frames of buffer and chunk are committed, the remainder is kept |
| Deframer.CutFrame | language_server/src/emscripten_server_streams.cpp:139-161 | one round of the loop: it cuts off the frame in front of the buffer, and nothing when there is none |
| Deframer.FrameIff | language_server/src/emscripten_server_streams.cpp:139-161 | a round yields a frame if and only if it is the one in front: the header up to the first empty line, a payload of the length in its first line |
| FramingLaws.RoundStays | language_server/src/emscripten_server_streams.cpp:139-161 | more bytes do not change a decision that has been made |
| FramingLaws.FramesOfMore | language_server/src/emscripten_server_streams.cpp:136-162 | cutting frames off as chunks arrive is cutting them off the whole |
| FramingLaws.Receive | language_server/src/emscripten_server_streams.cpp:136-162 | for every way of cutting the stream, the messages of the whole stream are committed |
| FramingLaws.FramesConserve | language_server/src/emscripten_server_streams.cpp:136-162 | committed frames and buffer make up the bytes received |
| FramingLaws.WrittenIsFramed | language_server/src/emscripten_server_streams.cpp:62-162 | written messages of any length come out in order, and the buffer ends empty |
| CharsetTables.GenerateConversions | language_server/src/pseudo_convertors.cpp:143-166 | the places where the tables differ, in order |
| CharsetTables.EnumerateUniquePrefixes | language_server/src/pseudo_convertors.cpp:109-141 | exactly the first bytes of the entries that are converted |
| CharsetTables.RowDiffers | language_server/src/pseudo_convertors.cpp:53-106 | the entries of each row in which the Nordic pages differ from IBM1148 |
| Charset.Convert | language_server/src/pseudo_convertors.cpp:178-205 | the prefix search replaces matches from left to right, on every byte string |
| Charset.From | language_server/src/pseudo_convertors.cpp:207-210 | conversion from a Nordic page |
| Charset.To | language_server/src/pseudo_convertors.cpp:212-215 | conversion to a Nordic page |
| Charset.ConvertSubstitutes | language_server/src/pseudo_convertors.cpp:178-205 | on well-formed UTF-8 the loop is substitution code point by code point |
| CharsetReadings.ConvertedReads | language_server/src/pseudo_convertors.cpp:178-205 | on all bytes it substitutes the characters and copies the stray bytes between them |
| Charset.PageSubstitutes | language_server/src/pseudo_convertors.cpp:53-166 | what the generated conversions do to every code point, in both directions |
| Charset.FromThenToIsIdentity | language_server/src/pseudo_convertors.cpp:178-215 | `to` undoes `from` if and only if the page is IBM1143 or the text holds no euro sign |
| Charset.ToThenFromIsIdentity | language_server/src/pseudo_convertors.cpp:178-215 | `from` undoes `to` if and only if the page is IBM1143 or the text holds no currency sign |
| Charset.SignsLost | language_server/src/pseudo_convertors.cpp:178-215 | the euro sign and the currency sign are lost with IBM278 |
| StreamingConvertor.ConvertTableFits | clients/vscode-hlasmplugin/src/conversions.ts:19-42 | every table entry takes one to three bytes |
| StreamingConvertor.ConvertBuffer | clients/vscode-hlasmplugin/src/conversions.ts:45-60 | the converted records, written inside the array allocated beforehand |
| StreamingConvertor.ConvFits | clients/vscode-hlasmplugin/src/conversions.ts:46-57 | no prefix of the conversion exceeds the allocated size |
| ConvertedRecords.CapitalLetters | language_server/src/pseudo_convertors.cpp:53-106 | the capital letters stand at 0xC1, 0xD1 and 0xE2 of every page |
| ConvertedRecords.SmallLetters | language_server/src/pseudo_convertors.cpp:53-106 | the small letters at 0x81, 0x91 and 0xA2 |
| ConvertedRecords.Digits | language_server/src/pseudo_convertors.cpp:53-106 | the digits at 0xF0 |
| ConvertedRecords.BreaksReplaced | clients/vscode-hlasmplugin/src/conversions.ts:29-42 | 0x0D and 0x25 become U+E00D and U+E025, every other byte its character, and no byte of the data breaks a line |
| ConvertedRecords.RecordConverted | clients/vscode-hlasmplugin/src/conversions.ts:45-60 | a complete record is written with an end of line behind it, and the rest follows as if it stood alone |
| ConvertedRecords.RestConverted | clients/vscode-hlasmplugin/src/conversions.ts:45-60 | bytes that make up no record are written without one |
| StreamingConvertor.FBStreamingConvertor.Write | clients/vscode-hlasmplugin/src/FBStreamingConvertor.ts:33-42 | complete records are converted, fewer than a record stay pending; pending bytes are lost when the chunk does not complete their record |
| StreamingConvertor.FBStreamingConvertor.GetResult | clients/vscode-hlasmplugin/src/FBStreamingConvertor.ts:44-53 | all that was converted, and the pending bytes |
| StreamingConvertor.Stream | clients/vscode-hlasmplugin/src/FBStreamingConvertor.ts:33-53 | writes and `getResult` convert exactly the bytes that were kept |
| StreamingConvertor.StreamIsBatchIff | clients/vscode-hlasmplugin/src/FBStreamingConvertor.ts:33-53 | the stream equals the batch form if and only if every write that finds pending bytes completes their record |
| StreamingConvertor.ShortWriteLoses | clients/vscode-hlasmplugin/src/FBStreamingConvertor.ts:33-53 | two writes of one byte into longer records lose the first |
| Scheduler.CallReaches | parser_library/src/workspace_manager.cpp:379-434 | a complete call of the handler is a run, so what holds of every run holds after every call |
| SchedulerLaws.StepKeeps | parser_library/src/workspace_manager.cpp:188-434 | every step keeps the invariant of queue, order and parse task |
| SchedulerLaws.PerformKeeps | parser_library/src/workspace_manager.cpp:390-415 | performing an item, in whole or in part, keeps it |
| SchedulerLaws.ReachableInv | parser_library/src/workspace_manager.cpp:379-434 | every state of every run keeps the invariant |
| SchedulerSafety.LiveQueryAfterDrain | parser_library/src/workspace_manager.cpp:379-434 | in every run a live query is performed only after the backlog was found empty, with no file change executed since; the backlog is still empty if and only if nothing has marked a file since |
| SchedulerSafety.MarkingKinds | parser_library/src/workspace_manager.cpp:222-258 | only openings, closings, changes of settings and file changes that are not removed mark files |
| SchedulerSafety.DoneMeansDrained | parser_library/src/workspace_manager.cpp:379-417 | wherever `parsing_done` is set, when the backlog was last found empty, and when it still is |
| SchedulerSafety.NoStaleParse | parser_library/src/workspace_manager.cpp:312-434 | whenever a parse task is resumed, no file change was executed since it was created, and none in the queue is half done |
| SchedulerSafety.NothingRunsUnanswered | parser_library/src/workspace_manager.cpp:387-389 | no item with unanswered configuration requests runs |
| SchedulerSafety.CompletedInOrder | parser_library/src/workspace_manager.cpp:379-417 | items other than debugger-configuration requests complete in the order of their ids, and none is lost |
| SchedulerSafety.AnsweredExactlyOnce | parser_library/src/workspace_manager.cpp:648-676 | every query ever enqueued has been answered exactly once or still waits, in order |
| SchedulerSafety.AnsweredAsPopped | parser_library/src/workspace_manager.cpp:648-659 | a query is answered at the step that pops it: performed if live, cancelled if invalid |
| SchedulerSafety.InsertedBehindOpens | parser_library/src/workspace_manager.cpp:1102-1127 | a debugger-configuration request goes behind the last queued `workspace_open` and in front of everything after it |
| SchedulerSafety.QueryMeetsMarkedFiles | parser_library/src/workspace_manager.cpp:400-406 | a run in which a query is performed while marked files wait |
| SchedulerTurns.ParsingOvertakes | parser_library/src/workspace_manager.cpp:385-419 | in every run parsing goes ahead of the queue only if nothing has been parsed in this call and the front item, if any, is a query, neither cancelled nor of a removed workspace |
| SchedulerTurns.ChosenTurn | parser_library/src/workspace_manager.cpp:390-391 | at an item that may be performed the handler turns to parsing if it is such a query, and performs it otherwise |
| SchedulerTurns.DeadQueryFirst | parser_library/src/workspace_manager.cpp:385-413 | before a cancelled or removed query in front has been performed, no parse task is started, resumed or created and no call returns |
| SchedulerTurns.DeadQueryAnswered | parser_library/src/workspace_manager.cpp:390-413 | it is answered with the error that fits and popped; parse task and marked files stay |
| SchedulerTurns.HandlerReturns | parser_library/src/workspace_manager.cpp:379-434 | a call returns if and only if the front item waits for its configuration, a task in the queue or a parse task gave way, or nothing is queued |
| SchedulerTurns.LeavesDrained | parser_library/src/workspace_manager.cpp:416-434 | it returns with nothing queued only after the backlog was found empty, with no file change executed since |
| SchedulerTurns.MarkedUntilParsed | parser_library/src/workspace_manager.cpp:312-361 | a marked file leaves the backlog only by a parse of it that came to its end, or by a file change |
| SchedulerTurns.MarkedIsParsedBeforeQuery | parser_library/src/workspace_manager.cpp:312-434 | when a live query is performed, every file that was marked since the last file change, up to the drain, has been parsed to its end |
| SchedulerTurns.FlagsIff | parser_library/src/workspace_manager.cpp:188-201 | an item is invalid if and only if it is a query that was cancelled while it waited, and removed if and only if its workspace was |
| SchedulerTurns.PendingIff | parser_library/src/workspace_manager.cpp:203-310 | an item waits for exactly the request sent with it, until the answer to this request has come |
| WorkspaceManager.Manager.constructor | parser_library/src/workspace_manager.cpp:1200-1215 | a new manager is about to open the implicit workspace |
| WorkspaceManager.Manager.EmplaceBack | parser_library/src/workspace_manager.cpp:269-310 | a new item with the next id, with a configuration request of its own id when asked |
| WorkspaceManager.Manager.DidChangeFile | parser_library/src/workspace_manager.cpp:436-540 | two file changes in a row |
| WorkspaceManager.Manager.DidChangeWatchedFiles | parser_library/src/workspace_manager.cpp:570-614 | two file changes in a row, both tasks |
| WorkspaceManager.Manager.HandleRequest | parser_library/src/workspace_manager.cpp:660-676 | a query at the end of the queue; `SchedulerSafety.AnsweredExactlyOnce` says what becomes of it |
| WorkspaceManager.Manager.AddWorkspace | parser_library/src/workspace_manager.cpp:1043-1073 | a `workspace_open` that may wait for its settings; `SchedulerSafety.CompletedInOrder` says when it completes |
| WorkspaceManager.Manager.RemoveWorkspace | parser_library/src/workspace_manager.cpp:1075-1098 | a `workspace_close`; `SchedulerSafety.CompletedInOrder` says when it completes |
| WorkspaceManager.Manager.ConfigurationChanged | parser_library/src/workspace_manager.cpp:737-766 | the new items in order with their ids: one change of settings for the implicit workspace and one for each open one, only these waiting for settings |
| WorkspaceManager.Manager.ProvideDebuggerConfiguration | parser_library/src/workspace_manager.cpp:1102-1127 | the reverse search finds the place of the priority insertion |
| WorkspaceManager.Manager.ResolveRequest | parser_library/src/workspace_manager.cpp:261-287 | the answered request leaves the item that waits for it |
| WorkspaceManager.RemovePendingRequest | parser_library/src/workspace_manager.cpp:203-212 | the first entry with the id is removed |
| WorkspaceManager.WithoutTakesFirst | parser_library/src/workspace_manager.cpp:203-212 | and everything else stays |
| WorkspaceManager.Manager.PerformAction | parser_library/src/workspace_manager.cpp:222-258 | what each kind of action may do, and when it may be left undone |
| WorkspaceManager.Manager.PerformFront | parser_library/src/workspace_manager.cpp:390-415 | one item is performed as the state machine does it |
| WorkspaceManager.Manager.RunActiveTask | parser_library/src/workspace_manager.cpp:312-338 | a finished task leaves, and its file with it |
| WorkspaceManager.Manager.RunParseLoop | parser_library/src/workspace_manager.cpp:340-373 | ends with the backlog empty or with a task that gave way |
| WorkspaceManager.Manager.RunParsing | parser_library/src/workspace_manager.cpp:419-427 | the task under way first, then the loop; the queue stays as it is |
| WorkspaceManager.Manager.IdleHandler | parser_library/src/workspace_manager.cpp:379-434 | every call terminates and is one complete call of the state machine, which returns only at an empty queue, an unanswered configuration request, a started item or a parse task that gave way; of queries only a live one is left in front, and only there |
| BlockingQueue.NextKeeps | language_server/src/blocking_queue.h:46-110 | what one step of one thread keeps |
| BlockingQueue.StepKeeps | language_server/src/blocking_queue.h:46-110 | every interleaved step keeps mutual exclusion, order, flags and pending notifications |
| BlockingQueue.NoLostWakeup | language_server/src/blocking_queue.h:46-110 | with one reader: while it sleeps over an element or over the end, some thread stands between its unlock and its `notify_one` |
| BlockingQueue.FirstInFirstOut | language_server/src/blocking_queue.h:46-113 | popped values are a prefix of the accepted ones, and the flag mirrors the queue but for the moments between changing one and the other |
| BlockingQueue.PushAccepts | language_server/src/blocking_queue.h:46-62 | a push goes to the end unless the queue has been terminated, and notifies exactly if it was empty |
| BlockingQueue.PopTakesFront | language_server/src/blocking_queue.h:84-101 | what a pop returns is the front element; under `process_elements` nothing exactly if none is left |
| BlockingQueue.TerminateTerminates | language_server/src/blocking_queue.h:103-110 | termination takes effect, leaves the queue alone and notifies |
| BlockingQueue.WillBlockIff | language_server/src/blocking_queue.h:112-115 | while nobody holds the mutex, `will_block` says yes exactly if a pop would fall asleep |
| BlockingQueue.SurePopStaysAwake | language_server/src/blocking_queue.h:84-115 | after `will_block` said no, the one reader does not fall asleep |
| BlockingQueue.NothingAtTheEnd | language_server/src/blocking_queue.h:84-101 | under `process_elements` nothing is returned only when all that is ever accepted has been popped |
| BlockingQueue.DropReturnsNothingIff | language_server/src/blocking_queue.h:84-101 | under `drop_elements` nothing is returned if and only if the queue has been terminated |
| BlockingQueue.TwoReadersLoseWakeup | language_server/src/blocking_queue.h:46-101 | with more than one reader, under either policy: a run in which a reader sleeps over an element while every other thread is idle |
| BlockingQueue.NoWakeupLostIff | language_server/src/blocking_queue.h:46-110 | no run loses a wakeup if and only if there is one reader |
| ConnectionPool.SemaphoreStep | clients/vscode-hlasmplugin/src/asyncMutex.ts:26-44 | every step keeps the accounting of slots and waiters |
| ConnectionPool.SlotsAndOrder | clients/vscode-hlasmplugin/src/asyncMutex.ts:26-44 | granted and available slots make up all slots, callers wait only while none is available, slots go out in order of arrival |
| ConnectionPool.ClientStep | clients/vscode-hlasmplugin/src/connectionPool.ts:34-91 | every step keeps each client in one place |
| ConnectionPool.EveryClientInOnePlace | clients/vscode-hlasmplugin/src/connectionPool.ts:34-91 | every client ever created is pooled, with one call, or closed, exactly one of these, and closed at most once |
| ConnectionPool.ClientsWithinLimit | clients/vscode-hlasmplugin/src/connectionPool.ts:61-91 | pooled clients and calls that have or create one never exceed the limit |
| ConnectionPool.PoolIsFifo | clients/vscode-hlasmplugin/src/connectionPool.ts:61-83 | a call takes the client that has been pooled the longest, one is created only for an empty pool, and clients come back behind all others |
| ConnectionPool.DisposedStaysEmpty | clients/vscode-hlasmplugin/src/connectionPool.ts:34-44 | after `dispose` the pool stays empty and no timer runs |
| ConnectionPool.ReturnsToPoolIff | clients/vscode-hlasmplugin/src/connectionPool.ts:70-91 | a client returns to the pool if and only if its action succeeded, it is reusable, and nothing has closed the pool since the generation was read |
| ConnectionPool.OldClientReturns | clients/vscode-hlasmplugin/src/connectionPool.ts:40-83 | a run in which a client survives `closeClients` |
| ConnectionPool.FreshClientReturns | clients/vscode-hlasmplugin/src/connectionPool.ts:40-83 | the same for a client that has just been created |
| ConnectionPool.IdleClientWithoutTimer | clients/vscode-hlasmplugin/src/connectionPool.ts:53-91 | a run that leaves a pooled client without a timer |
| ConnectionPool.TimerRunsIff | clients/vscode-hlasmplugin/src/connectionPool.ts:34-91 | the timer runs if and only if a client has come back and since then no call has started, the timer has not fired and the pool has not been disposed |
| ConnectionPool.PooledWithoutTimerIff | clients/vscode-hlasmplugin/src/connectionPool.ts:34-91 | pooled clients are without a timer if and only if a call has started since the last client came back |
| ExternalReader.StepKeeps | language_server/src/external_file_reader.cpp:48-219 | every interleaved step keeps each request in one place |
| ExternalReader.PendingAreRegistered | language_server/src/external_file_reader.cpp:48-61 | every pending id belongs to a registered thread |
| ExternalReader.EndsAtMostOnce | language_server/src/external_file_reader.cpp:48-219 | a request ends at most once, by send error, handler call or drop, and one that has not ended is pending or in the hands of a thread |
| ExternalReader.ResponsesReachTheirOwn | language_server/src/external_file_reader.cpp:176-199 | a handler is called only for the id it was enqueued under |
| ExternalReader.NoIdReachesNobody | language_server/src/external_file_reader.cpp:176-199 | a response without an id changes nothing |
| ExternalReader.UnregisteredLeavesNothing | language_server/src/external_file_reader.cpp:208-219 | unregistering drops exactly the pending requests of the thread |
| ExternalReader.SentOnce | language_server/src/external_file_reader.cpp:48-140 | no request is sent twice, and none that was reported as failed |
| ExternalReader.EnqueueDecides | language_server/src/external_file_reader.cpp:48-61 | enqueuing makes the request pending exactly if its thread is registered |
| ExternalReader.ResponseTakes | language_server/src/external_file_reader.cpp:176-199 | a response to a pending request takes it; any other changes nothing |
| ExternalReader.HandledAfterUnregistering | language_server/src/external_file_reader.cpp:187-219 | a run in which a handler is called after its thread has unregistered |
| ExternalReader.CalledAfterUnregisteringIff | language_server/src/external_file_reader.cpp:176-219 | after a thread has unregistered, the handler of a request of its own can still be called if and only if another thread held it then |

## Left out

- Windows: `is_windows()` is false throughout; drive letters, `uri_to_path`, `path_to_uri` and the presentable forms are not modelled.
- `relative_reference_resolution`, `filename`, `parent`, `replace_filename` and `is_prefix_of`: thin uses of the members that are modelled.
- Relative forms between locations with different authorities, or with queries and fragments: the code path is in `ResourceLocation.LexicallyRelative`, the round trip is stated for the locations it is meant for. Between different schemes there is none (`ResourceForms.SchemesDiffer`).
- Utf8Substr.SubstrStep: without validation, a text whose last announced size oversteps the end is undefined behaviour in the source; such texts are not modelled.
- StreamingConvertor.ConvertBuffer: the record length is positive.
- Deframer.StdinHandler.DataEventHandler: a `Content-Length` that is not made of digits goes through the conversion of JavaScript to a number, which is not modelled; the handler then reports that it left the model.
- Framing.InputStream.ReadAll: JSON is not parsed; every delivered message counts, and logging is left out.
- StreamingConvertor.Stream: bytes are compared before they are decoded to text, and there is one `getResult` at the end.
- WorkspaceManager.Manager.IdleHandler: actions do not enqueue items while they run; tasks are finitely many resumptions chosen by the environment, files are names, and a file change may mark or unmark any of them.
- WorkspaceManager.Manager.PerformAction: what a query computes from the parsed files is not modelled.
- WorkspaceManager.Manager.ResolveRequest: the settings that arrive with the answer are not modelled.
- Diagnostics, progress and metadata consumers of the workspace manager are not modelled.
- ConnectionPool.EveryClientInOnePlace: `close` and `reusable` do not throw; an exception from them would run `close` a second time.
- ConnectionPool.DisposedStaysEmpty: the delay of the timer is not modelled; it may fire whenever it is armed.
- BlockingQueue.NoLostWakeup: atomics are sequentially consistent, and scheduling is arbitrary interleaving.
- ExternalReader.ResponsesReachTheirOwn: what a handler makes of the content of a response is not modelled.
- Ids are unbounded: the wrap-around of 64-bit counters after 2^64 requests is not modelled.
- `BlockingQueue`, `ExternalReader`, `ConnectionPool` and `Scheduler` are state machines on values: between two steps their states do not share memory.
- `uriFriendlyBase16Encode` and `uriFriendlyBase16Decode`: only an easy round trip.
- `extract_utf32_from_utf8`, `skip_chars` and the byte-class predicates of `unicode_text.cpp`: easy members.
