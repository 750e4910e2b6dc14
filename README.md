# File browser path protection, in Dafny

The file browser confines each logged-in user to a private root folder on
the server. Client pages never see real absolute paths. They see tokens:
the absolute path with the user's root folder deleted from it. When a token
comes back, the server rebuilds the file by putting the root folder in
front of it. `FileBrowserModule.java` holds this codec as two private
functions. They are `protectFile`, which encodes, and
`reconstructProtectedFileFromPath`, which decodes. Two Tapestry
`ValueEncoder`s, one for `FileModel` and one for `java.io.File`, do nothing
but call them.

The project has two files.

- `JavaStrings.dfy` (module `JavaStrings`) models the one piece of
  `java.lang.String` the codec relies on:
  `String.replace(CharSequence, CharSequence)`. `ReplaceAll` replaces every
  non-overlapping occurrence of the target, scanning from left to right, and
  resumes the scan just past each match. With an empty target, Java inserts
  the replacement before every character and at the end (`InsertEverywhere`).
  So an empty target with an empty replacement leaves the string unchanged.
  `Contains` and `IsPrefix` describe substring occurrence, and `Contains` is
  proved equal to the index-based reading `OccursAt`.
- `FileBrowserModule.dfy` (module `FileBrowserModule`) holds the codec
  (`ProtectFile`, `ReconstructProtectedFileFromPath`), the session object
  `UserInfo`, `FileModel` as a wrapper around a path string, and the four
  encoder operations. It also holds the round-trip lemmas and the lemmas
  that show where the round trip stops holding.

The session lookup `asm.get(UserInfo.class).getRootFolderForLoggedInUser()`
becomes an explicit parameter. The codec takes the root folder itself, and
the encoders take the session's `UserInfo`.

`String.replace` at line 173 deletes every occurrence of the root folder,
not just a leading one. So, for a non-empty root, the round trip holds
exactly under a side condition, `UnderRootOnce(root, p)`: `p` is the root
followed by a remainder in which the root does not occur again. The
condition is proved both sufficient (`RoundTripFromPath`) and necessary
(`RoundTripFromPathOnlyUnderRootOnce`). With an empty root, Java's
`replace("", "")` returns its input, so both functions return their input
unchanged and every path survives the round trip, although `UnderRootOnce`
holds of no path then (`EmptyRootRoundTrip`). From the token side, for a
non-empty root, a token survives decoding and re-encoding exactly when the
root does not occur in it (`RoundTripFromTokenIff`); with an empty root
every token survives, although the empty root occurs in every token. `RoundTripNeedsSideCondition` shows a path
that has the root as a prefix and still does not survive the round trip.
`ProtectCanCreateOccurrence` shows that a token can still contain the root
folder. Decoding does no containment check, and `TraversalTokenAccepted`
shows a `..` token accepted as it is.

## Model

| member | source | states |
|---|---|---|
| FileBrowserModule.ProtectFile | src/main/java/com/dragansah/filebrowser/services/FileBrowserModule.java:170-174 | the token is never longer than the path, and a path in which the root folder does not occur is its own token |
| FileBrowserModule.ReconstructProtectedFileFromPath | src/main/java/com/dragansah/filebrowser/services/FileBrowserModule.java:192-197 | the decoded file starts with the root folder, and what follows the root folder is exactly the token |
| FileBrowserModule.ReconstructInjective | src/main/java/com/dragansah/filebrowser/services/FileBrowserModule.java:195-196 | two tokens that decode to the same file are equal |
| FileBrowserModule.ProtectStripsLeadingRoot | src/main/java/com/dragansah/filebrowser/services/FileBrowserModule.java:155-156 | for a non-empty root and a path that is the root followed by a remainder without the root, the token is that remainder |
| FileBrowserModule.RoundTripFromPath | src/main/java/com/dragansah/filebrowser/services/FileBrowserModule.java:168-196 | under the same condition, decoding the token of a path gives the path back |
| FileBrowserModule.RoundTripFromToken | src/main/java/com/dragansah/filebrowser/services/FileBrowserModule.java:173-196 | for a non-empty root and a token in which the root does not occur, encoding the decoded file gives the token back |
| FileBrowserModule.RoundTripFromPathOnlyUnderRootOnce | src/main/java/com/dragansah/filebrowser/services/FileBrowserModule.java:173-196 | for a non-empty root, a path that comes back unchanged from encoding then decoding starts with the root, and the root does not occur again after that prefix |
| FileBrowserModule.RoundTripFromTokenIff | src/main/java/com/dragansah/filebrowser/services/FileBrowserModule.java:173-196 | for a non-empty root, encoding the decoded file gives the token back if and only if the root does not occur in the token |
| FileBrowserModule.ProtectWithEmptyRoot | src/main/java/com/dragansah/filebrowser/services/FileBrowserModule.java:173 | with an empty root folder, every path is its own token |
| FileBrowserModule.EmptyRootRoundTrip | src/main/java/com/dragansah/filebrowser/services/FileBrowserModule.java:173-196 | with an empty root folder every path survives encoding then decoding, and no path satisfies the non-empty-root side condition |
| FileBrowserModule.ProtectShortensOnOccurrence | src/main/java/com/dragansah/filebrowser/services/FileBrowserModule.java:173 | when a non-empty root folder occurs in the path, the token is strictly shorter than the path |
| FileBrowserModule.FileModelToClient | src/main/java/com/dragansah/filebrowser/services/FileBrowserModule.java:129-132 | the FileModel encoder's token is never longer than the model's absolute path |
| FileBrowserModule.FileModelToValue | src/main/java/com/dragansah/filebrowser/services/FileBrowserModule.java:134-137 | a FileModel decoded from any token has the session's root folder as a prefix of its path |
| FileBrowserModule.FileToClient | src/main/java/com/dragansah/filebrowser/services/FileBrowserModule.java:142-145 | the File encoder's token is never longer than the file's absolute path |
| FileBrowserModule.FileToValue | src/main/java/com/dragansah/filebrowser/services/FileBrowserModule.java:147-150 | a File decoded from any token has the session's root folder as a prefix |
| FileBrowserModule.EncodersAgree | src/main/java/com/dragansah/filebrowser/services/FileBrowserModule.java:129-145 | the FileModel and File encoders give the same token for the same absolute path |
| FileBrowserModule.FileModelEncoderRoundTrip | src/main/java/com/dragansah/filebrowser/services/FileBrowserModule.java:127-138 | a FileModel whose path lies under the root once survives toClient followed by toValue |
| FileBrowserModule.FileEncoderRoundTrip | src/main/java/com/dragansah/filebrowser/services/FileBrowserModule.java:140-151 | a token without the root survives the File encoder's toValue followed by toClient |
| FileBrowserModule.FileModelEncoderTokenRoundTrip | src/main/java/com/dragansah/filebrowser/services/FileBrowserModule.java:127-138 | a token without the root survives the FileModel encoder's toValue followed by toClient |
| FileBrowserModule.FileEncoderPathRoundTrip | src/main/java/com/dragansah/filebrowser/services/FileBrowserModule.java:140-151 | a File whose path lies under the root once survives toClient followed by toValue |
| FileBrowserModule.AliceEncodeScenario | src/main/java/com/dragansah/filebrowser/services/FileBrowserModule.java:170-174 | root "/home/alice" and path "/home/alice/docs/report.pdf" give the token "/docs/report.pdf" |
| FileBrowserModule.AliceDecodeScenario | src/main/java/com/dragansah/filebrowser/services/FileBrowserModule.java:192-197 | the token "/docs/report.pdf" under root "/home/alice" decodes to "/home/alice/docs/report.pdf" |
| FileBrowserModule.TraversalTokenAccepted | src/main/java/com/dragansah/filebrowser/services/FileBrowserModule.java:192-197 | the token "/../../etc/passwd" is decoded unchanged to "/home/alice/../../etc/passwd", with no rejection |
| FileBrowserModule.ProtectCanCreateOccurrence | src/main/java/com/dragansah/filebrowser/services/FileBrowserModule.java:173 | with root "ab" the path "aabb" becomes "ab", so a token can still contain the root folder |
| FileBrowserModule.RoundTripNeedsSideCondition | src/main/java/com/dragansah/filebrowser/services/FileBrowserModule.java:173-196 | the path "/r/x/r" starts with root "/r", yet its token is "/x" and decoding gives "/r/x", not the path |
| JavaStrings.ContainsIffOccursAt | src/main/java/com/dragansah/filebrowser/services/FileBrowserModule.java:173 | a string occurs in another exactly when it occurs at some index of it |
| JavaStrings.ReplaceEmptyTargetEmptyRepl | src/main/java/com/dragansah/filebrowser/services/FileBrowserModule.java:173 | replace with an empty target and an empty replacement returns the string unchanged |
| JavaStrings.ReplaceNoOccurrence | src/main/java/com/dragansah/filebrowser/services/FileBrowserModule.java:173 | whenever the target is non-empty and does not occur, replacing it returns the string unchanged |
| JavaStrings.ReplaceLeading | src/main/java/com/dragansah/filebrowser/services/FileBrowserModule.java:173 | a leading occurrence is replaced and the scan continues right after it |
| JavaStrings.ReplaceByEmptyShrinks | src/main/java/com/dragansah/filebrowser/services/FileBrowserModule.java:173 | deleting occurrences never lengthens a string, and shortens it when a non-empty target occurs |
| JavaStrings.MissingCharNotContained | src/main/java/com/dragansah/filebrowser/services/FileBrowserModule.java:173 | a target with a character the string lacks does not occur in it |

`JavaStrings.ReplaceAll`, the model of `String.replace` at line 173, has no
contract of its own: the rows for `ReplaceEmptyTargetEmptyRepl`,
`ReplaceNoOccurrence`, `ReplaceLeading` and `ReplaceByEmptyShrinks` are its
contract.

## Left out

- The session lookup through `ApplicationStateManager` (lines 172 and 195) is replaced by an explicit root folder or `UserInfo`. `UserInfo.java` is not part of this model, so `UserInfo` holds only a username and a root folder.
- `java.io.File` construction and `getAbsolutePath()` depend on the working directory and normalise separators, which is library behaviour. A file is its absolute-path string, and `new File(p).getAbsolutePath()` is taken to be `p`.
- RoundTripFromToken: holds in the program only for tokens that `new File(rootFolder + path)` (line 196) leaves as they are. Java normalises the path, so a token with a trailing or doubled separator does not come back: under root "/home/alice" the token "/docs/" becomes the file "/home/alice/docs" and then the token "/docs". A relative root folder is also first resolved against the working directory.
- FileEncoderRoundTrip: the same normalisation limits it, since it goes through `new File(rootFolder + path)` and `getAbsolutePath()` (lines 149 and 173).
- FileModelEncoderTokenRoundTrip: the same normalisation limits it (lines 136 and 131).
- RoundTripFromTokenIff: its "if" direction has the same normalisation limit.
- RoundTripFromPath: holds in the program for paths already in the normalised form `getAbsolutePath()` returns, and for an absolute root folder.
- FileEncoderPathRoundTrip, FileModelEncoderRoundTrip: the same restriction to normalised absolute paths and an absolute root folder.
- ReconstructInjective: in the program, decoding is injective only on tokens that `new File(rootFolder + path)` (line 196) leaves unchanged, that is, tokens with no trailing or doubled separator. `File.equals` compares normalised paths, so under root "/home/alice" the tokens "/docs", "/docs/" and "//docs" all decode to equal files. The model compares the strings themselves.
- Java `null` is not modelled. `asm.get(UserInfo.class)` (lines 172 and 195) creates a fresh `UserInfo` when the session has none, and its root folder may then be null. With a null root folder, `replace(null, "")` at line 173 throws `NullPointerException`, while line 196 builds the string `"null" + path`. A null token at line 196 gives `rootFolder + "null"`. A null file or `FileModel` value makes `getAbsolutePath()` throw at line 131 (FileModel encoder) or at line 173, reached from line 144 (File encoder). The model's strings are never null.
- `FileModel.java` is not part of this model. `FileModel.fromFile` is modelled as wrapping the file's path.
- `buildTimingFilter` and `contributeRequestHandler` (lines 77-119) measure wall-clock time, log, and wire the request pipeline. None of that is logic of the codec.
- `contributeFactoryDefaults` and `contributeApplicationDefaults` (lines 47-57) only register constant configuration values.
- `components/Layout.java` is page glue: injected services, session invalidation on logout, and a constant logout URL. It has no logic of its own to verify.
- The code has no path canonicalisation and no invalid-token error, so the model has none either. Decoding accepts every token.
- Java strings are UTF-16 code-unit sequences. The model's `seq<char>` is a sequence of Unicode scalar values, so a string holding a lone surrogate cannot be represented, and `|s|` counts scalar values rather than Java's `length()` (the length lemmas are about that count). Matching between well-formed strings is the same, exact character by character, as `String.replace` does.
