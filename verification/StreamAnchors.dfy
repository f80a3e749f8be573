/** The texts that a stream body may name its commit and its path by, and why a body is refused. */
module StreamAnchors {
  import opened Prelude
  import opened Utf8
  import opened EventStream
  import Base64

  const HEX := T("0123456789abcdef")

  /** A commit name of SHA-1 or of SHA-256. */
  predicate IsCommitName(t: Text) {
    |t| in {40, 64} && forall c :: c in t ==> c in HEX
  }

  /** A small letter, a digit or the underscore. */
  predicate IsNameCharacter(c: CodePoint) {
    0 <= c - 0x61 < 26 || 0 <= c - 0x30 < 10 || [c] == T("_")
  }

  predicate IsName(t: Text) {
    t != [] && forall c :: c in t ==> IsNameCharacter(c)
  }

  /** The root's own directory, or that of one of its children. */
  predicate IsDirectory(t: Text, name: Text) {
    t == [] || (IsName(name) && t == T("sub/") + name + T("/"))
  }

  ghost predicate IsStreamPath(path: Text) {
    exists dir, name :: IsDirectory(dir, name)
      && (path == dir + T("patchwork-check-event-stream.cue") || path == dir + T("patchwork-check-events.jsonl"))
  }

  lemma HexIs(c: CodePoint)
    ensures c in HEX <==> IsHex(c)
  {
    assert HEX == [0x30, 0x31, 0x32, 0x33, 0x34, 0x35, 0x36, 0x37, 0x38, 0x39, 0x61, 0x62, 0x63, 0x64, 0x65, 0x66];
  }

  lemma CommitNameExactly(t: Text)
    ensures IsOid(t) <==> IsCommitName(t)
  {
    hide IsHex, T;
    forall c ensures c in HEX <==> IsHex(c) { HexIs(c); }
    if IsOid(t) {
      forall c | c in t ensures c in HEX {
        var i :| 0 <= i < |t| && t[i] == c;
      }
    }
  }

  lemma NameExactly(t: Text)
    ensures IsCheckName(t) <==> IsName(t)
  {
    assert T("_") == [0x5F];
    if IsCheckName(t) {
      forall c | c in t ensures IsNameCharacter(c) {
        var i :| 0 <= i < |t| && t[i] == c;
      }
    }
    if IsName(t) {
      forall i | 0 <= i < |t| ensures 0x61 <= t[i] <= 0x7A || 0x30 <= t[i] <= 0x39 || t[i] == 0x5F {
        assert t[i] in t;
      }
    }
  }

  lemma DirectoryExactly(t: Text)
    ensures IsNodeDirectory(t) <==> exists name :: IsDirectory(t, name)
  {
    hide IsCheckName, IsName;
    var sub: Text, end: Text := T("sub/"), T("/");
    assert end == [0x2F];
    if IsNodeDirectory(t) {
      if t == [] {
        assert IsDirectory(t, []);
      } else {
        var name := t[4..|t| - 1];
        NameExactly(name);
        assert t == sub + name + end;
        assert IsDirectory(t, name);
      }
    }
    if name :| IsDirectory(t, name) {
      if t != [] {
        NameExactly(name);
        assert t[..4] == sub && t[4..|t| - 1] == name;
        assert name != [] by { NamesAreThere(name); }
      }
    }
  }

  lemma NamesAreThere(name: Text)
    requires IsName(name)
    ensures name != []
  {
  }

  lemma FileInDirectory(path: Text, dir: Text, name: Text, file: Text)
    requires IsDirectory(dir, name) && path == dir + file && (file == CANONICAL_PATH || file == LEGACY_PATH)
    ensures IsSourcePath(path)
  {
    hide IsNodeDirectory, IsDirectory, T;
    DirectoryExactly(dir);
    assert path[..|dir|] == dir && path[|dir|..] == file;
  }

  lemma DirectoryOfFile(path: Text, k: nat) returns (name: Text)
    requires k <= |path| && IsNodeDirectory(path[..k])
    ensures IsDirectory(path[..k], name) && path == path[..k] + path[k..]
  {
    hide IsNodeDirectory, IsDirectory;
    DirectoryExactly(path[..k]);
    name :| IsDirectory(path[..k], name);
  }

  lemma StreamPathExactly(path: Text)
    ensures IsSourcePath(path) <==> IsStreamPath(path)
  {
    hide IsNodeDirectory, IsDirectory, T;
    if IsSourcePath(path) {
      var k :| 0 <= k <= |path| && IsNodeDirectory(path[..k]) && (path[k..] == CANONICAL_PATH || path[k..] == LEGACY_PATH);
      var name := DirectoryOfFile(path, k);
    }
    if IsStreamPath(path) {
      var dir, name :| IsDirectory(dir, name)
        && (path == dir + T("patchwork-check-event-stream.cue") || path == dir + T("patchwork-check-events.jsonl"));
      if path == dir + CANONICAL_PATH {
        FileInDirectory(path, dir, name, CANONICAL_PATH);
      } else {
        FileInDirectory(path, dir, name, LEGACY_PATH);
      }
    }
  }

  /** A body's anchors are valid exactly when they are texts, a commit name and the path of a node's stream. */
  lemma AnchorsExactly(oid: Field, path: Field)
    ensures ValidAnchor(oid, path) <==>
      oid.TextField? && IsCommitName(oid.t) && path.TextField? && IsStreamPath(path.t)
  {
    hide IsOid, IsSourcePath, IsCommitName, IsStreamPath;
    if oid.TextField? { CommitNameExactly(oid.t); }
    if path.TextField? { StreamPathExactly(path.t); }
  }

  /** Why a body is refused, of the five reasons the first that applies: fields missing or added, the anchors, no
      base64, more than four MiB of bytes, pad bits set. */
  lemma RefusedExactly(body: Body, failure: Failure)
    ensures DecodeRawStream(body) == Err(failure) <==>
      var keyed := body.Keys == {"raw_stream_base64", "source_oid", "source_path"};
      if !keyed then failure == Failure("SCHEMA_VALIDATION", "/body")
      else
        var (oid, path, field) := (body["source_oid"], body["source_path"], body["raw_stream_base64"]);
        if !(oid.TextField? && IsCommitName(oid.t)) then failure == Failure("GIT_IDENTITY", "/body/source_oid")
        else if !(path.TextField? && IsStreamPath(path.t)) then failure == Failure("GIT_IDENTITY", "/body/source_path")
        else if !(field.TextField? && Base64.Shaped(field.t)) then failure == Failure("ENCODING", "/body/raw_stream_base64")
        else if |Base64.LooseDecode(field.t)| > 4 * 1024 * 1024 then failure == Failure("INPUT_LIMIT", "/body/raw_stream_base64")
        else !Base64.PadBitsZero(field.t) && failure == Failure("NON_CANONICAL", "/body/raw_stream_base64")
  {
    hide IsOid, IsSourcePath, IsCommitName, IsStreamPath, ValidAnchor, Base64.Shaped, Base64.LooseDecode, Base64.Encode, Base64.PadBitsZero;
    if ClosedBody(body) {
      var (oid, path, field) := (body["source_oid"], body["source_path"], body["raw_stream_base64"]);
      AnchorsExactly(oid, path);
      if oid.TextField? { CommitNameExactly(oid.t); }
      if field.TextField? && Base64.Shaped(field.t) {
        Base64.AnnouncedSizeIsExact(field.t);
        Base64.EncodeOfDecode(field.t);
      }
    }
  }
}
