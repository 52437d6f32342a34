# lsp-framework core in Dafny

This project models the core of lsp-framework, a C++ library for the
Language Server Protocol. It covers five pieces.

- **`lsp::Uri`** (`lsp/uri.cpp`). A generic URI stores its five components
  (scheme, authority, path, query, fragment) end to end in one `std::string`.
  It keeps one 16-bit length per component and presence flags for the
  authority, the query and the fragment.
  - `parse` cuts a string into components. It lower-cases the scheme,
    upper-cases the digits of percent escapes in the authority, query and
    fragment, and percent-decodes the path.
  - `toString` glues the components back together, percent-encoding the path.
  - The accessors, setters, removers and `insert*` update the packed string
    in place.
  - `encode` and `decode` do the percent-encoding.
- **`lsp::FileUri`** (`lsp/fileuri.cpp`). A `Uri` that is either a `file:`
  URI or invalid, with a path that drops its leading `/` on Windows.
- **`lsp::MessageDispatcher`**, the outgoing-request half
  (`lsp/messagedispatcher.cpp`):
  - a process-wide counter that hands out request ids;
  - a table of pending continuations keyed by id;
  - the resolution of a continuation by the response that carries its id,
    either singly or in a batch.
- **The example client's command line** (`examples/client.cpp`):
  - `--port=N` connects to a server on a socket;
  - `--exe=PROGRAM ARGS...` launches a server and forwards the arguments
    that follow it;
  - `main` prints the usage text when it has neither.
- **The example server's command line** (`examples/server.cpp`): the first
  `--port=N` whose number parses.

Layout:

| file | module | content |
|---|---|---|
| `ascii.dfy` | `Ascii` | The `<cctype>` classes and case mappings of the "C" locale on bytes. |
| `uri_text.dfy` | `UriText` | The scanners, `normalizeEncodedCase`, `encode` and `decode`. |
| `uri_parts.dfy` | `UriParts` | The value of a Uri (`Parts`), as its accessors report it. `Split` cuts text the way `parse` does and `Join` glues components the way `toString` does. Also holds the round-trip theorems. |
| `uri.dfy` | `Uris` | The `Uri` class over the packed string. |
| `file_uri.dfy` | `FileUris` | The `FileUri` operations over a `Uri` object. |
| `dispatcher.dfy` | `Dispatch` | The counter, the continuations and the dispatcher. |
| `command_line.dfy` | `CommandLine` | `std::from_chars` into an `unsigned short`, and the `--port=` prefix. |
| `client_args.dfy` | `ClientArgs` | `parseArgs` and the check in `main` of the example client. |
| `server_args.dfy` | `ServerArgs` | `parsePortArg` of the example server. |

Main results:

- **Round trip.** `UriParts.ParseSerialize` proves
  `ParseValue(Serialize(v)) == v` for every URI value that `toString` can
  spell unambiguously.
- **Parse reads the whole input.** `UriParts.JoinSplit` proves that
  `parse` reads every character of its input, which is the
  `assert(idx == uriStr.size())` of the source. `UriParts.SplitFailsIff`
  names the three cases in which `parse` gives up.
- **`Uri::parse` and `Uri::toString`** are proved against those functions.
- **Percent-encoding.** `decode(encode(s, exclude)) == s` holds for every
  byte string `s` and every `exclude` that does not contain '%', with the
  encoder that indexes its digit table by the unsigned byte (see
  "## Findings"). When '%' is excluded the round trip fails:
  `encode("%41", "%")` is "%41", which decodes to "A". Decoding fails
  exactly when a `%` has two characters after it that are not both
  hexadecimal digits.
- **Dispatcher.** A batch of responses resolves each pending continuation
  whose id it carries exactly once, and touches no other.
- **Client.** The client's parse is characterised by the first `--exe=`
  argument. The usage exit happens exactly when no argument names an
  executable and no `--port=` argument parses.

The model works on characters that stand for bytes. The fixed-width
integers of the source are written out where they matter. The scanners
count in `std::uint16_t`, and their results are stated modulo 65536.

## Model

| member | source | states |
|---|---|---|
| `Ascii.ToLower` | lsp/uri.cpp:329 | The result is never a capital. A capital maps to its lower-case letter; every other character is kept. |
| `Ascii.ToUpper` | lsp/uri.cpp:83-85 | The result is never a small letter. A small letter maps to its capital; every other character is kept. |
| `Ascii.HexValue` | lsp/uri.cpp:405 | A hexadecimal digit of either case denotes a value below 16. |
| `Ascii.HexDigit` | lsp/uri.cpp:383-386 | The digit table gives an upper-case hexadecimal digit whose value is the index, so reading it back gives the index. |
| `Ascii.Lowercase` | lsp/uri.cpp:328-329 | Lowers every character in place. The length is kept and no capital remains. |
| `UriText.SchemeLength` | lsp/uri.cpp:9-22 | The length of the longest prefix of alphanumerics, '-', '.' and '+'. Every character before it qualifies and the one at it does not. |
| `UriText.ScanUntil` | lsp/uri.cpp:24-67 | The position of the first stop character, or the length when there is none. |
| `UriText.ParseUriScheme` | lsp/uri.cpp:9-22 | The loop's 16-bit count is the scheme length modulo 65536. It is exactly the length for inputs shorter than 65536. |
| `UriText.CountUntil` | lsp/uri.cpp:24-67 | The 16-bit count of characters before the first stop character, modulo 65536, and exact below 65536. |
| `UriText.ParseUriAuthority` | lsp/uri.cpp:24-37 | The authority runs up to the first '/', '?' or '#'. The count is modulo 65536. |
| `UriText.ParseUriPath` | lsp/uri.cpp:39-52 | The path runs up to the first '?' or '#'. The count is modulo 65536. |
| `UriText.ParseUriQuery` | lsp/uri.cpp:54-67 | The query runs up to the first '#'. The count is modulo 65536. |
| `UriText.NormalizeCase` | lsp/uri.cpp:74-90 | Normalising the escapes of a whole component keeps its length. |
| `UriText.NormalizeOnlyUppercases` | lsp/uri.cpp:74-90 | Each character of the normalised text is either the original or its upper-case form, at the same place. |
| `UriText.NormalizeUppercasesEscapes` | lsp/uri.cpp:74-90 | When no '%' sits inside an escape, exactly the two characters after each '%' that has two after it are upper-cased. Nothing else changes. |
| `UriText.NormalizeIdempotent` | lsp/uri.cpp:74-90 | Normalising twice gives the same text as normalising once. |
| `UriText.SpanEnd` | lsp/uri.cpp:76 | The scan ends at first + count, clipped to the size of the string. It is exactly first + count when that fits, and never past the string. |
| `UriText.NormalizeSpan` | lsp/uri.cpp:78-89 | The scan over a span changes characters in place, so the string keeps its size. |
| `UriText.NormalizeEncodedCase` | lsp/uri.cpp:74-90 | The in-place loop computes the left-to-right scan of [first, min(first + count, size)), skipping past each escape it upper-cases. |
| `UriText.NormalizeSpanExact` | lsp/uri.cpp:74-90 | Over a span that holds exactly the text u, the scan writes the normal form of u and leaves the text around it alone. |
| `UriText.SignedChar` | lsp/uri.cpp:385 | A byte read through a signed char lies in -128..127. It is negative exactly for bytes from 0x80, and agrees with the byte modulo 256. |
| `UriText.HexIndicesAsWrittenNibbles` | lsp/uri.cpp:385-386 | As written, the indices c >> 4 and c & 0xF are the two nibbles for a 7-bit byte. For every byte from 0x80 the high index is negative. |
| `UriText.HexIndexAsWrittenOfC3` | lsp/uri.cpp:385 | The byte 0xC3 is looked up at index -4. |
| `UriText.Encode` | lsp/uri.cpp:366-391 | The loop's output is the encoding of the whole input, character after character. |
| `UriText.EncodedHasEncodedForm` | lsp/uri.cpp:366-391 | The output consists of safe or excluded characters, and of '%' followed by two upper-case hexadecimal digits. |
| `UriText.EncodedAvoids` | lsp/uri.cpp:366-391 | A character that is neither safe, nor a hex digit, nor '%', nor excluded never appears in the output. So an encoded path has no '?' and no '#'. |
| `UriText.EncodedFront` | lsp/uri.cpp:371-380 | The output is empty exactly for empty input. Its first character is the first input character when that is kept, and '%' otherwise. |
| `UriText.Decoded` | lsp/uri.cpp:393-420 | A successful decoding is never longer than its input. |
| `UriText.Decode` | lsp/uri.cpp:393-420 | The loop returns the decoding of the input, and "" when decoding fails. |
| `UriText.DecodeEncode` | lsp/uri.cpp:366-420 | Decoding undoes encoding for any byte string, as long as '%' is not excluded from escaping. |
| `UriText.DecodeEncodedChar` | lsp/uri.cpp:399-411 | An escape produced by the encoder decodes to its byte, whatever follows it. |
| `UriText.DecodeFailsIff` | lsp/uri.cpp:399-408 | Decoding fails exactly when some '%' with two characters after it is not followed by two hexadecimal digits. |
| `UriText.DecodeWithoutPercent` | lsp/uri.cpp:413-416 | Text without '%' decodes to itself. |
| `UriParts.SplitFailsIff` | lsp/uri.cpp:94-125 | parse gives the empty Uri exactly in three cases. The text has no scheme. hasCharAt finds no ':' after the scheme, which includes text that ends right there. Or an authority opened by "//" is followed by a character other than '/'. |
| `UriParts.SplitAuthorityFailsIff` | lsp/uri.cpp:109-125 | The authority stage gives up exactly when "//" opens an authority and the scan for it stops at a character other than '/'. |
| `UriParts.SplitPathSucceeds` | lsp/uri.cpp:120-153 | Once the authority stage has passed, the path, query and fragment stages never make parse fail. |
| `UriParts.JoinSplit` | lsp/uri.cpp:94-158 | parse consumes the whole input (the assert at the end): gluing the raw components back with their delimiters gives the input. |
| `UriParts.JoinSplitAuthority` | lsp/uri.cpp:109-118 | From the authority on, what the parser takes, glued back, is the rest of the input. |
| `UriParts.JoinSplitPath` | lsp/uri.cpp:120-132 | From the path on, what the parser takes, glued back, is the rest of the input. |
| `UriParts.JoinSplitQuery` | lsp/uri.cpp:134-143 | From the query on, what the parser takes, glued back, is the rest of the input. |
| `UriParts.JoinSplitFragment` | lsp/uri.cpp:145-155 | The fragment takes the rest of the input, so the index ends at the size. |
| `UriParts.SplitJoin` | lsp/uri.cpp:94-194 | Cutting the text toString glues from joinable components gives those components back. |
| `UriParts.SchemeOfJoin` | lsp/uri.cpp:98-107 | In glued text the scheme scanner stops right at the scheme's ':'. |
| `UriParts.SplitJoinAuthority` | lsp/uri.cpp:109-125 | From the scheme's ':' on, parsing glued text recovers the authority and everything after it. |
| `UriParts.AuthorityOfJoin` | lsp/uri.cpp:109-125 | In glued text, "//" follows the ':' exactly when there is an authority. The authority scanner stops at its end, which is followed by '/' or the end of the text. |
| `UriParts.SplitJoinPath` | lsp/uri.cpp:120-132 | From the path on, parsing glued text recovers the path, query and fragment. |
| `UriParts.PathOfJoin` | lsp/uri.cpp:127-131 | In glued text the path scanner stops at the end of the path. |
| `UriParts.SplitJoinQuery` | lsp/uri.cpp:134-143 | From the query on, parsing glued text recovers the query and fragment. |
| `UriParts.QueryOfJoin` | lsp/uri.cpp:134-143 | In glued text, '?' follows the path exactly when there is a query. The query scanner stops at its end. |
| `UriParts.SplitJoinFragment` | lsp/uri.cpp:145-153 | From the fragment on, parsing glued text recovers the fragment. |
| `UriParts.AuthoritySlice` | lsp/uri.cpp:173-177 | toString writes "//" and then the authority right after the scheme's ':'. |
| `UriParts.PathSlice` | lsp/uri.cpp:179 | toString writes the path right after the authority. |
| `UriParts.QuerySlice` | lsp/uri.cpp:181-185 | toString writes '?' and then the query right after the path. |
| `UriParts.AfterAuthority` | lsp/uri.cpp:173-179 | In toString's text an authority is followed by '/' or the end. Without an authority, no "//" follows the ':'. |
| `UriParts.AfterPath` | lsp/uri.cpp:179-185 | After the path comes the end, '?' or '#', and '?' exactly when there is a query. |
| `UriParts.AfterQuery` | lsp/uri.cpp:181-191 | After the query comes '#' exactly when there is a fragment, and otherwise the end. |
| `UriParts.JoinPrefixes` | lsp/uri.cpp:170-191 | Each stage of toString's appends is a prefix of its final text. |
| `UriParts.SplitShaped` | lsp/uri.cpp:94-158 | The raw components parse cuts hold: a scheme of scheme characters, absent components empty, and no component holding the delimiter that ends it. |
| `UriParts.NormalizeAvoids` | lsp/uri.cpp:74-90 | Normalising escapes introduces no delimiter and leaves text that is already normalised. |
| `UriParts.LowercaseSchemeChars` | lsp/uri.cpp:323-330 | Lowering scheme characters gives scheme characters without capitals. |
| `UriParts.ParseValueCanonical` | lsp/uri.cpp:94-158 | parse either gives the empty, invalid Uri or a valid one in canonical form. Canonical means a lower-case scheme, upper-case escapes, no stray delimiters, and absent components empty. |
| `UriParts.ParseSerialize` | lsp/uri.cpp:94-194 | Parsing the text of toString gives back the Uri, for every Uri that toString can spell unambiguously. |
| `UriParts.SerializeEmptyIff` | lsp/uri.cpp:160-163 | toString gives "" exactly for an invalid Uri. |
| `Uris.Replace` | lsp/uri.cpp:325 | std::string::replace changes the size by the length of the new text minus the count replaced. |
| `Uris.UnpackPacked` | lsp/uri.cpp:216-252 | Packing the components end to end and reading them back with their lengths and flags gives the components. |
| `Uris.PackedUnpack` | lsp/uri.cpp:216-252 | Every packed string is the components the accessors read out of it, glued end to end, with the recorded lengths. |
| `Uris.SchemeReplaced` | lsp/uri.cpp:325 | Replacing the scheme's span of the packed string replaces the scheme and nothing else. |
| `Uris.AuthorityReplaced` | lsp/uri.cpp:335 | Replacing the authority's span replaces the authority and nothing else. |
| `Uris.PathReplaced` | lsp/uri.cpp:344 | Replacing the path's span replaces the path and nothing else. |
| `Uris.QueryReplaced` | lsp/uri.cpp:351 | Replacing the query's span replaces the query and nothing else. |
| `Uris.FragmentReplaced` | lsp/uri.cpp:360 | Replacing the fragment's span replaces the fragment and nothing else. |
| `Uris.SchemeInserted` | lsp/uri.cpp:323-330 | After the replace and the lowering loop, the layout holds and only the scheme has changed, to its lower-case form. |
| `Uris.AuthorityInserted` | lsp/uri.cpp:332-339 | After the replace and normalisation of the span, the layout holds. The authority is present and normalised, and nothing else changed. |
| `Uris.PathInserted` | lsp/uri.cpp:341-346 | After the replace, the layout holds and only the path has changed. |
| `Uris.QueryInserted` | lsp/uri.cpp:348-355 | After the replace and normalisation of the span, the query is present and normalised, and nothing else changed. |
| `Uris.FragmentInserted` | lsp/uri.cpp:357-364 | After the replace and normalisation of the span, the fragment is present and normalised, and nothing else changed. |
| `Uris.Uri.constructor` | lsp/uri.cpp:96-101 | A default Uri is invalid and has no components. |
| `Uris.Uri.Copy` | lsp/fileuri.cpp:43 | A copy of a Uri reports the same components. |
| `Uris.Uri.Assign` | lsp/fileuri.cpp:49 | After assignment the target reports the components the source had. |
| `Uris.Uri.IsValid` | lsp/uri.cpp:196-199 | A Uri is valid exactly when its scheme is not empty. |
| `Uris.Uri.HasAuthority` | lsp/uri.cpp:201-204 | Reports the authority's presence flag. |
| `Uris.Uri.HasQuery` | lsp/uri.cpp:206-209 | Reports the query's presence flag. |
| `Uris.Uri.HasFragment` | lsp/uri.cpp:211-214 | Reports the fragment's presence flag. |
| `Uris.Uri.Scheme` | lsp/uri.cpp:216-219 | The first span of the packed string is the scheme. |
| `Uris.Uri.Authority` | lsp/uri.cpp:221-228 | The authority, and empty whenever the Uri has none. |
| `Uris.Uri.Path` | lsp/uri.cpp:230-234 | The span after scheme and authority is the path. |
| `Uris.Uri.Query` | lsp/uri.cpp:236-243 | The query, and empty whenever the Uri has none. |
| `Uris.Uri.Fragment` | lsp/uri.cpp:245-252 | The fragment, and empty whenever the Uri has none. |
| `Uris.Uri.InsertScheme` | lsp/uri.cpp:323-330 | The scheme becomes the lower-cased argument, the layout invariant is kept, and nothing else changes. |
| `Uris.Uri.InsertAuthority` | lsp/uri.cpp:332-339 | The authority becomes present with its escapes upper-cased, and nothing else changes. |
| `Uris.Uri.InsertPath` | lsp/uri.cpp:341-346 | The path becomes the argument as given, and nothing else changes. |
| `Uris.Uri.InsertQuery` | lsp/uri.cpp:348-355 | The query becomes present with its escapes upper-cased, and nothing else changes. |
| `Uris.Uri.InsertFragment` | lsp/uri.cpp:357-364 | The fragment becomes present with its escapes upper-cased, and nothing else changes. |
| `Uris.Uri.SetScheme` | lsp/uri.cpp:254-265 | Succeeds exactly when every character is a scheme character and the 16-bit count reaches the size, and then stores the lowered scheme. On failure nothing changes. |
| `Uris.Uri.SetAuthority` | lsp/uri.cpp:267-278 | Succeeds exactly when the text holds no '/', '?' or '#' and the 16-bit count reaches the size. On failure nothing changes. |
| `Uris.Uri.SetPath` | lsp/uri.cpp:280-284 | Always succeeds and stores the path as given. |
| `Uris.Uri.SetQuery` | lsp/uri.cpp:286-297 | Succeeds exactly when the text holds no '#' and the 16-bit count reaches the size. On failure nothing changes. |
| `Uris.Uri.SetFragment` | lsp/uri.cpp:299-303 | Always succeeds and stores the normalised fragment. |
| `Uris.Uri.RemoveAuthority` | lsp/uri.cpp:305-309 | The authority becomes absent and empty, and nothing else changes. |
| `Uris.Uri.RemoveQuery` | lsp/uri.cpp:311-315 | The query becomes absent and empty, and nothing else changes. |
| `Uris.Uri.RemoveFragment` | lsp/uri.cpp:317-321 | The fragment becomes absent and empty, and nothing else changes. |
| `Uris.Uri.ToString` | lsp/uri.cpp:160-194 | The text is the serialisation of the Uri's components. Together with UriParts.ParseSerialize, parse reads it back. |
| `Uris.Uri.Parse` | lsp/uri.cpp:94-158 | The new Uri holds the cut-and-cooked components of the input, or is the empty invalid Uri where the input has no scheme, no ':' after it, or an authority not followed by '/'. |
| `Uris.Uri.ParseAuthorityPart` | lsp/uri.cpp:109-125 | Takes the authority up to the next '/', '?' or '#'. The parse then fails unless '/' or the end follows, and otherwise continues at that position. |
| `Uris.Uri.ParsePathPart` | lsp/uri.cpp:122-132 | Takes the path up to the next '?' or '#' and stores it decoded. The parse continues there. |
| `Uris.Uri.ParseQueryPart` | lsp/uri.cpp:134-143 | Takes the query up to the next '#'. The parse continues there. |
| `Uris.Uri.ParseFragmentPart` | lsp/uri.cpp:145-153 | Takes the rest of the input as the fragment and ends at its size. |
| `Uris.AuthorityStage` | lsp/uri.cpp:109-125 | The authority block of parse performs the authority stage of the cut. |
| `Uris.NoAuthorityStage` | lsp/uri.cpp:109-111 | Without "//" the cut goes straight to the path. |
| `Uris.PathStage` | lsp/uri.cpp:127-131 | The path block performs the path stage of the cut. |
| `Uris.EmptyPathStage` | lsp/uri.cpp:120-122 | At the end of the input the path stage takes an empty path. |
| `Uris.QueryStage` | lsp/uri.cpp:134-143 | The query block performs the query stage of the cut. |
| `Uris.WholeScan` | lsp/uri.cpp:256-258 | A 16-bit count equals the size exactly when the whole text was scanned and the size is below 65536. |
| `FileUris.ConvertedIsFileOrInvalid` | lsp/fileuri.cpp:42-62 | Converting a Uri gives a "file" URI or the invalid Uri. The result is valid exactly when the scheme was "file". It leaves exactly the "file" URIs and the invalid Uri alone, and converting twice changes nothing more. |
| `FileUris.NewFileUri` | lsp/fileuri.cpp:6-10 | Both setters succeed, so a new FileUri has scheme "file", an empty authority that is present, and nothing else. |
| `FileUris.FromUri` | lsp/fileuri.cpp:42-56 | A copy of the Uri when it is valid with scheme "file", otherwise an invalid Uri. |
| `FileUris.AssignUri` | lsp/fileuri.cpp:47-62 | The target becomes the conversion of the other Uri. |
| `FileUris.FilePath` | lsp/fileuri.cpp:19-27 | The file path is the stored path, or that path with one leading '/' removed, which happens only on Windows. |
| `FileUris.FilePathOfStoredPath` | lsp/fileuri.cpp:19-40 | path() gives back the absolute path that setPath stored, on either build. |
| `FileUris.SetFilePath` | lsp/fileuri.cpp:29-40 | Always succeeds. Stores the absolute path, prefixed with '/' on Windows, and changes nothing else. |
| `FileUris.FromPath` | lsp/fileuri.cpp:12-17 | A default FileUri whose path is the stored form of the absolute path. |
| `Dispatch.UniqueRequestIds.constructor` | lsp/messagedispatcher.cpp:10 | The counter starts at 0, so the first id handed out is 1. |
| `Dispatch.UniqueRequestIds.Next` | lsp/messagedispatcher.cpp:8-12 | Each id is one more than the one before and is the counter's new value, so the first id is 1. |
| `Dispatch.RequestResult.SetValueFromJson` | lsp/messagehandler.h:149 | Resolves with the value when it deserialises. Otherwise it reports a type error and stays unresolved. |
| `Dispatch.RequestResult.SetException` | lsp/messagehandler.h:150 | Resolves with the exception. |
| `Dispatch.AfterBatchEntries` | lsp/messagedispatcher.cpp:56-61 | A batch takes out of the table exactly the ids it carries, and keeps every other entry as it was. |
| `Dispatch.BatchResolvesOnce` | lsp/messagedispatcher.cpp:56-61 | A batch resolves exactly the pending ids it carries, each one once. |
| `Dispatch.MessageDispatcher.constructor` | lsp/messagedispatcher.cpp:15-18 | A new dispatcher has no pending request and has resolved nothing. |
| `Dispatch.MessageDispatcher.SendRequest` | lsp/messagedispatcher.cpp:63-71 | Takes the next id, which is neither pending nor ever resolved, and files the continuation under it. Writes one request envelope with that id, the method and the parameters. |
| `Dispatch.MessageDispatcher.SendNotification` | lsp/messagedispatcher.cpp:73-78 | Writes one notification envelope. Neither the table nor the counter changes. |
| `Dispatch.MessageDispatcher.OnResponse` | lsp/messagedispatcher.cpp:20-54 | A pending id leaves the table, and its continuation is resolved once: with the result, with a TypeError when the result does not deserialise, or with a ResponseError carrying the error's code, message and data. An unknown id changes nothing. |
| `Dispatch.DeliveredNotPending` | lsp/messagedispatcher.cpp:20-54 | A continuation that has received its outcome is no longer among the pending ones, so a later response cannot reach it. |
| `Dispatch.BatchStep` | lsp/messagedispatcher.cpp:56-61 | One more response of a batch acts on the table the earlier ones left behind. The ids already resolved have left the table, and every remaining entry is the original one. |
| `Dispatch.MessageDispatcher.DeliverNext` | lsp/messagedispatcher.cpp:56-61 | One pass of the loop is one onResponse call. Every outcome delivered so far, and the one this response delivers, is held by the continuation it was meant for. |
| `Dispatch.MessageDispatcher.OnResponseBatch` | lsp/messagedispatcher.cpp:56-61 | Handles the responses in order, as that many onResponse calls. Each continuation that was pending under an id of the batch ends up holding the outcome of its response: the result, a TypeError, or the ResponseError. |
| `CommandLine.LeadingDigits` | examples/client.cpp:206 | from_chars reads the longest run of decimal digits at the front. |
| `CommandLine.FromChars` | examples/client.cpp:204-210 | A value comes out only for text that starts with a digit, and it fits an unsigned short. |
| `CommandLine.PortValue` | examples/server.cpp:200-208 | A `--port=` argument gives a port only when it has the prefix and its number parses. The port fits an unsigned short. |
| `CommandLine.FromCharsDecimal` | examples/client.cpp:206 | A decimal number followed by non-digit text is read back. A number above 65535 is rejected. |
| `CommandLine.FromCharsLeadingZero` | examples/client.cpp:206 | Leading zeros do not change the number read. A lone "0" reads as 0. |
| `ServerArgs.FirstPort` | examples/server.cpp:192-217 | The port found, if any, fits an unsigned short. |
| `ServerArgs.ParsePortArg` | examples/server.cpp:192-217 | The loop from argv[1] returns the port of the first `--port=` argument whose number parses, and nullopt when there is none. |
| `ServerArgs.FirstPortIsFirst` | examples/server.cpp:200-209 | The first `--port=` that parses decides, whatever follows it. |
| `ServerArgs.FirstPortFound` | examples/server.cpp:196-209 | A result always comes from some `--port=` argument, with no parsing `--port=` before it. |
| `ServerArgs.FirstPortNone` | examples/server.cpp:210-216 | No port exactly when no argument is a `--port=` whose number parses. |
| `ClientArgs.ArgsAfter` | examples/client.cpp:186-228 | The port recorded, if any, fits an unsigned short. |
| `ClientArgs.ParseArgs` | examples/client.cpp:186-228 | The loop from argv[1] computes the parse of the arguments after the program name. |
| `ClientArgs.LastPort` | examples/client.cpp:202-213 | The port of the last parsing `--port=` fits an unsigned short. |
| `ClientArgs.LastPortNone` | examples/client.cpp:202-213 | No port exactly when no argument is a `--port=` whose number parses. |
| `ClientArgs.ArgsBeforeExe` | examples/client.cpp:193-224 | Until an argument names an executable, a later valid port overrides an earlier one. Nothing else is recorded. |
| `ClientArgs.ArgsForwarded` | examples/client.cpp:197-201 | Once the executable is named, every later argument is forwarded unchanged and in order, even a `--port=` or an `--exe=`. |
| `ClientArgs.ArgsFromExe` | examples/client.cpp:193-228 | The parse is the last valid port before the first `--exe=` with a name, that name, and every argument after it verbatim. |
| `ClientArgs.Decide` | examples/client.cpp:236-257 | Usage exactly when there is no port and no executable. Connect exactly when there is a port, to that port, so a port wins over an executable. Otherwise launch the named executable with its forwarded arguments. |
| `ClientArgs.UsageIff` | examples/client.cpp:236-242 | The client exits with the usage text exactly when no argument names an executable and no `--port=` argument parses. |

## Left out

- Uris.Uri.Parse: requires an input shorter than 65536 characters. Every
  input of 65536 characters or more is outside the model. That includes the
  inputs whose scheme, authority, path, query and fragment are each shorter
  than 65536, which the source parses exactly. It also includes those with
  a component of 65536 or more, whose 16-bit length the source truncates.
- Uris.Uri.InsertScheme: requires a scheme shorter than 65536 characters.
  The source truncates its 16-bit length field.
- Uris.Uri.InsertAuthority: requires an authority shorter than 65536
  characters, for the same reason.
- Uris.Uri.InsertPath: requires a path shorter than 65536 characters, for
  the same reason.
- Uris.Uri.InsertQuery: requires a query shorter than 65536 characters, for
  the same reason.
- Uris.Uri.InsertFragment: requires a fragment shorter than 65536
  characters, for the same reason.
- Uris.Uri.SetPath: requires a path shorter than 65536 characters, for the
  same reason.
- Uris.Uri.SetFragment: requires a fragment shorter than 65536 characters,
  for the same reason.
- Uris.Uri.ParseAuthorityPart: requires an input shorter than 65536 characters, and
  so excludes the same inputs as Uris.Uri.Parse.
- Uris.Uri.ParsePathPart: requires an input shorter than 65536 characters, and
  so excludes the same inputs as Uris.Uri.Parse.
- Uris.Uri.ParseQueryPart: requires an input shorter than 65536 characters, and
  so excludes the same inputs as Uris.Uri.Parse.
- Uris.Uri.ParseFragmentPart: requires an input shorter than 65536 characters, and
  so excludes the same inputs as Uris.Uri.Parse.
- FileUris.SetFilePath: requires the stored path to be shorter than 65536
  characters, for the same reason.
- FileUris.FromPath: requires the stored path to be shorter than 65536
  characters, for the same reason.
- Uris.Uri.ToString: requires the path to be a byte string. A `char` of the
  model stands for one byte; text outside 0..255 has no counterpart in the
  source.
- UriText.Encode: requires a byte string for the same reason. It is the
  corrected encoder; the encoder as written is the finding below.
- Dispatch.MessageDispatcher.SendRequest: requires an unresolved
  continuation that is not already in the table. The source moves a fresh
  `std::unique_ptr` in, which guarantees both.
- Dispatch.MessageDispatcher.constructor: requires the shared counter to be
  non-negative. In the source it starts at 0 and only grows. Its 64-bit
  overflow is not modelled.
- Moved-from objects: the `Uri&&` overloads of `FileUri` are modelled like
  the copying ones. What remains in the moved-from Uri is not modelled.
- `lsp/uri.h` and `lsp/fileuri.h` are not part of this model:
  - `FileUri::Scheme` is taken to be "file".
  - The implicit copy constructor and copy assignment of `Uri` are
    `Uris.Uri.Copy` and `Uris.Uri.Assign`.
- `std::filesystem::absolute` is a function parameter of
  `FileUris.SetFilePath` and `FileUris.FromPath`.
- The Windows and non-Windows builds of `FileUri` are one boolean
  parameter, `windows`.
- The dispatcher's concurrency is not modelled:
  - The mutex, the atomic counter and the thread pool are left out; the
    model runs on one thread.
  - The counter is one object that the dispatcher is given, standing for the
    function-local static.
- Only what the dispatcher needs of JSON is modelled:
  - JSON values are a small datatype.
  - `messageMethodToString` is left out: methods are given as their strings.
  - `jsonrpc::createRequest` and `createNotification` are the envelope
    datatype.
  - The connection is a log of the envelopes written.
- What a continuation does with its value is not modelled
  (`lsp/messagehandler.inl` is not part of this model). Whether the result
  deserialises is the function `decodes`. Only the outcome a continuation
  receives is recorded.
- The request-handling half of `MessageDispatcher` (incoming requests and
  notifications) is outside the modelled core.
- All I/O of the example programs is left out: stderr diagnostics ("Invalid
  port", "Unknown argument", the usage text), sockets, processes and the
  exit status. `ClientArgs.Decide` names the branch `main` takes instead.
- `argv` is a sequence of strings whose length is `argc`.
- The round trip `ParseValue(Serialize(v)) == v` holds only for the values
  described by `UriParts.Serializable`. For the other values, parse does
  not read the text of toString back:
  - a path without a leading '/' under an authority, which is glued onto
    the authority;
  - a path starting with "//" without an authority, which is read back as
    an authority;
  - an empty path under an authority that has a query or a fragment. parse
    rejects that text: "s://h?q" has '?' after the authority where it
    demands '/' (lsp/uri.cpp:124-125).

## Findings

| source | as written | input that shows it | evidently intended | confidence | as-written member | corrected member |
|---|---|---|---|---|---|---|
| lsp/uri.cpp:385 | `hexLookup[c >> 4]` with `c` a plain `char`. Where `char` is signed, every byte from 0x80 gives a negative index, which reads before the digit table. | The byte 0xC3, the first byte of the UTF-8 form of "é", gives index -4. | Index by the unsigned byte, so that 0xC3 becomes "%C3". | high where `char` is signed; not executed | `UriText.HexIndicesAsWrittenNibbles` | `UriText.DecodeEncode` |

The rest of the model encodes with the unsigned byte: `UriText.EncodeChar`,
`UriText.Encode` and `Uris.Uri.ToString`.
