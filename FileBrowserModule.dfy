/**
  The per-user path-protection codec of the file browser
  (services/FileBrowserModule.java) and the two value encoders that carry
  file references to and from the client.

  A logged-in user is confined to a private root folder. Absolute server
  paths are shown to the client as tokens from which that root folder has
  been deleted, and a token coming back from the client is turned into a
  path again by putting the root folder in front of it. The session lookup
  of the root folder becomes an explicit parameter.
 */
module FileBrowserModule {
  import opened JavaStrings

  /** An absolute filesystem path, as File.getAbsolutePath() returns it. */
  type Path = string

  /** A java.io.File, represented by its absolute path. */
  type File = Path

  /** The session-state object of the logged-in user. */
  datatype UserInfo = UserInfo(username: string, rootFolderForLoggedInUser: Path)

  /** The domain reference to a file on the server (FileModel.fromFile wraps a file's path). */
  datatype FileModel = FileModel(absolutePath: Path)

  /**
    protectFile: the client-visible token for `value`, obtained by deleting
    EVERY occurrence of the root folder from its absolute path
    (String.replace(rootFolder, "")).
   */
  function ProtectFile(rootFolder: Path, value: File): (token: string)
    ensures |token| <= |value|
    ensures !Contains(value, rootFolder) ==> token == value
  {
    ReplaceByEmptyShrinks(value, rootFolder);
    ReplaceNoOccurrence(value, rootFolder, "");
    ReplaceAll(value, rootFolder, "")
  }

  /**
    reconstructProtectedFileFromPath: the file named by a client token, the
    root folder followed by the token. Nothing is checked: a token with ".."
    segments is taken as it is.
   */
  function ReconstructProtectedFileFromPath(rootFolder: Path, path: string): (f: File)
    ensures IsPrefix(rootFolder, f)
    ensures f[|rootFolder|..] == path
  {
    rootFolder + path
  }

  // The ValueEncoder<FileModel> registered in contributeValueEncoderSource.

  function FileModelToClient(session: UserInfo, value: FileModel): (token: string)
    ensures |token| <= |value.absolutePath|
  {
    // new File(p).getAbsolutePath() is p again for a normalised absolute path p
    ProtectFile(session.rootFolderForLoggedInUser, value.absolutePath)
  }

  function FileModelToValue(session: UserInfo, path: string): (v: FileModel)
    ensures IsPrefix(session.rootFolderForLoggedInUser, v.absolutePath)
  {
    FileModel(ReconstructProtectedFileFromPath(session.rootFolderForLoggedInUser, path))
  }

  // The ValueEncoder<File> registered in contributeValueEncoderSource.

  function FileToClient(session: UserInfo, value: File): (token: string)
    ensures |token| <= |value|
  {
    ProtectFile(session.rootFolderForLoggedInUser, value)
  }

  function FileToValue(session: UserInfo, path: string): (f: File)
    ensures IsPrefix(session.rootFolderForLoggedInUser, f)
  {
    ReconstructProtectedFileFromPath(session.rootFolderForLoggedInUser, path)
  }

  /**
    For a NON-EMPTY root folder, the side condition under which the codec
    is a bijection: `p` is the root folder followed by a remainder in which
    the root folder does not occur again. With an empty root folder both
    functions return their input unchanged (EmptyRootRoundTrip), while this
    predicate holds of no path, since the empty string occurs everywhere.
   */
  predicate UnderRootOnce(rootFolder: Path, p: Path) {
    IsPrefix(rootFolder, p) && !Contains(p[|rootFolder|..], rootFolder)
  }

  /** Decoding never maps two tokens to the same path string. */
  lemma ReconstructInjective(rootFolder: Path, t1: string, t2: string)
    requires ReconstructProtectedFileFromPath(rootFolder, t1) == ReconstructProtectedFileFromPath(rootFolder, t2)
    ensures t1 == t2
  {
  }

  /** Encoding strips a leading root folder that does not occur again. */
  lemma ProtectStripsLeadingRoot(rootFolder: Path, p: Path)
    requires |rootFolder| > 0 && UnderRootOnce(rootFolder, p)
    ensures ProtectFile(rootFolder, p) == p[|rootFolder|..]
  {
    var s := p[|rootFolder|..];
    assert p == rootFolder + s;
    ReplaceLeading(rootFolder, s, "");
    ReplaceNoOccurrence(s, rootFolder, "");
  }

  /** Round trip from a path: decoding the token of a path under the root gives the path back. */
  lemma RoundTripFromPath(rootFolder: Path, p: Path)
    requires |rootFolder| > 0 && UnderRootOnce(rootFolder, p)
    ensures ReconstructProtectedFileFromPath(rootFolder, ProtectFile(rootFolder, p)) == p
  {
    ProtectStripsLeadingRoot(rootFolder, p);
    assert p == rootFolder + p[|rootFolder|..];
  }

  /** Round trip from a token: encoding the decoded file gives the token back. */
  lemma RoundTripFromToken(rootFolder: Path, t: string)
    requires |rootFolder| > 0 && !Contains(t, rootFolder)
    ensures ProtectFile(rootFolder, ReconstructProtectedFileFromPath(rootFolder, t)) == t
  {
    var p := ReconstructProtectedFileFromPath(rootFolder, t);
    assert UnderRootOnce(rootFolder, p);
    ProtectStripsLeadingRoot(rootFolder, p);
  }

  /**
    The side condition is also necessary: a path that survives the round
    trip under a non-empty root folder lies under that root exactly once.
   */
  lemma RoundTripFromPathOnlyUnderRootOnce(rootFolder: Path, p: Path)
    requires |rootFolder| > 0
    requires ReconstructProtectedFileFromPath(rootFolder, ProtectFile(rootFolder, p)) == p
    ensures UnderRootOnce(rootFolder, p)
  {
    var s := p[|rootFolder|..];
    assert p == rootFolder + s;
    ReplaceLeading(rootFolder, s, "");
    ReplaceByEmptyShrinks(s, rootFolder);
  }

  /**
    Under a non-empty root folder, a token survives decoding followed by
    encoding exactly when the root folder does not occur in it.
   */
  lemma RoundTripFromTokenIff(rootFolder: Path, t: string)
    requires |rootFolder| > 0
    ensures ProtectFile(rootFolder, ReconstructProtectedFileFromPath(rootFolder, t)) == t
            <==> !Contains(t, rootFolder)
  {
    ReplaceLeading(rootFolder, t, "");
    ReplaceByEmptyShrinks(t, rootFolder);
    if !Contains(t, rootFolder) {
      RoundTripFromToken(rootFolder, t);
    }
  }

  /**
    Java's String.replace with an empty target and an empty replacement
    returns the string unchanged, so an empty root folder hides nothing.
   */
  lemma ProtectWithEmptyRoot(p: Path)
    ensures ProtectFile("", p) == p
  {
    ReplaceEmptyTargetEmptyRepl(p);
  }

  /** With an empty root folder every path survives the round trip, though none is UnderRootOnce. */
  lemma EmptyRootRoundTrip(p: Path)
    ensures ReconstructProtectedFileFromPath("", ProtectFile("", p)) == p
    ensures !UnderRootOnce("", p)
  {
    ProtectWithEmptyRoot(p);
    assert IsPrefix("", p[0..]);
  }

  /** Encoding shortens a path whenever a non-empty root folder occurs in it. */
  lemma ProtectShortensOnOccurrence(rootFolder: Path, p: Path)
    requires |rootFolder| > 0 && Contains(p, rootFolder)
    ensures |ProtectFile(rootFolder, p)| < |p|
  {
    ReplaceByEmptyShrinks(p, rootFolder);
  }

  /** Both encoders give the same token for the same absolute path. */
  lemma EncodersAgree(session: UserInfo, p: Path)
    ensures FileModelToClient(session, FileModel(p)) == FileToClient(session, p)
  {
  }

  /** Round trip through the FileModel encoder. */
  lemma FileModelEncoderRoundTrip(session: UserInfo, v: FileModel)
    requires |session.rootFolderForLoggedInUser| > 0
    requires UnderRootOnce(session.rootFolderForLoggedInUser, v.absolutePath)
    ensures FileModelToValue(session, FileModelToClient(session, v)) == v
  {
    RoundTripFromPath(session.rootFolderForLoggedInUser, v.absolutePath);
  }

  /** Round trip through the File encoder, starting from a client token. */
  lemma FileEncoderRoundTrip(session: UserInfo, token: string)
    requires |session.rootFolderForLoggedInUser| > 0
    requires !Contains(token, session.rootFolderForLoggedInUser)
    ensures FileToClient(session, FileToValue(session, token)) == token
  {
    RoundTripFromToken(session.rootFolderForLoggedInUser, token);
  }

  /** Round trip through the FileModel encoder, starting from a client token. */
  lemma FileModelEncoderTokenRoundTrip(session: UserInfo, token: string)
    requires |session.rootFolderForLoggedInUser| > 0
    requires !Contains(token, session.rootFolderForLoggedInUser)
    ensures FileModelToClient(session, FileModelToValue(session, token)) == token
  {
    RoundTripFromToken(session.rootFolderForLoggedInUser, token);
  }

  /** Round trip through the File encoder, starting from a file under the root. */
  lemma FileEncoderPathRoundTrip(session: UserInfo, f: File)
    requires |session.rootFolderForLoggedInUser| > 0
    requires UnderRootOnce(session.rootFolderForLoggedInUser, f)
    ensures FileToValue(session, FileToClient(session, f)) == f
  {
    RoundTripFromPath(session.rootFolderForLoggedInUser, f);
  }

  // The scenario lemmas below take their strings as parameters pinned by
  // their requires: with literal arguments written directly into the
  // ensures, the verifier unfolds ReplaceAll on the literals and runs out
  // of resources.

  /** A file of the user's home is shown without the home folder ... */
  lemma AliceEncodeScenario(root: Path, token: string)
    requires root == "/home/alice" && token == "/docs/report.pdf"
    ensures ProtectFile(root, root + token) == token
  {
    MissingCharNotContained(token, root, 1);
    RoundTripFromToken(root, token);
  }

  /** ... and its token is read back as exactly that file. */
  lemma AliceDecodeScenario(root: Path, token: string)
    requires root == "/home/alice" && token == "/docs/report.pdf"
    ensures ReconstructProtectedFileFromPath(root, token) == "/home/alice/docs/report.pdf"
  {
  }

  /** A token that climbs out of the root folder is decoded as it is; nothing rejects it. */
  lemma TraversalTokenAccepted(root: Path, token: string)
    requires root == "/home/alice" && token == "/../../etc/passwd"
    ensures ReconstructProtectedFileFromPath(root, token) == "/home/alice/../../etc/passwd"
    ensures FileToValue(UserInfo("alice", root), token) == "/home/alice/../../etc/passwd"
  {
  }

  /**
    Deleting occurrences can create a new one: with root "ab" the path
    "aabb" becomes "ab", so a token may still contain the root folder.
   */
  lemma ProtectCanCreateOccurrence(root: Path, p: Path)
    requires root == "ab" && p == "aabb"
    ensures ProtectFile(root, p) == root
    ensures Contains(ProtectFile(root, p), root)
  {
    assert p[..|root|][1] != root[1];
    assert p[1..] == root + "b";
    ReplaceLeading(root, "b", "");
    MissingCharNotContained("b", root, 0);
    ReplaceNoOccurrence("b", root, "");
    assert IsPrefix(root, root);
  }

  /**
    A path that has the root folder as a prefix is NOT always given back by
    the round trip: when the root folder occurs again further on, that
    occurrence is deleted too.
   */
  lemma RoundTripNeedsSideCondition(root: Path, p: Path)
    requires root == "/r" && p == "/r/x/r"
    ensures IsPrefix(root, p)
    ensures ProtectFile(root, p) == "/x"
    ensures ReconstructProtectedFileFromPath(root, ProtectFile(root, p)) != p
  {
    assert p == root + "/x/r";
    ReplaceLeading(root, "/x/r", "");
    assert !IsPrefix(root, "/x/r");
    assert "/x/r"[1..] == "x/r";
    assert !IsPrefix(root, "x/r");
    assert "x/r"[1..] == root + "";
    ReplaceLeading(root, "", "");
  }
}
