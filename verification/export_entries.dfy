/** Entries of a portable export: which paths and media types are accepted. */
module ExportEntries {
  import opened Prelude
  import opened Json
  import Base64

  datatype Entry = Entry(path: string, mediaType: string, bytes: seq<Byte>)

  // ----- paths -----

  /** `path.split("/")`. */
  function Split(path: string): (segments: seq<string>)
    ensures segments != []
  {
    if path == "" then [""]
    else if path[0] == '/' then [""] + Split(path[1..])
    else
      var rest := Split(path[1..]);
      [[path[0]] + rest[0]] + rest[1..]
  }

  predicate SafeSegment(segment: string) {
    segment != "" && segment != "." && segment != ".."
  }

  predicate PathIsSafe(path: string) {
    && path != ""
    && path[0] != '/'
    && '\\' !in path
    && forall i :: 0 <= i < |Split(path)| ==> SafeSegment(Split(path)[i])
  }

  function JoinSlashes(segments: seq<string>): string
    requires segments != []
  {
    if |segments| == 1 then segments[0] else segments[0] + "/" + JoinSlashes(segments[1..])
  }

  lemma {:induction false} JoinAfterChar(c: char, rest: seq<string>)
    requires rest != []
    ensures JoinSlashes([[c] + rest[0]] + rest[1..]) == [c] + JoinSlashes(rest)
  {
    var longer := [[c] + rest[0]] + rest[1..];
    assert longer[1..] == rest[1..];
    if |rest| > 1 {
      var more := JoinSlashes(rest[1..]);
      assert ([c] + rest[0]) + "/" + more == [c] + (rest[0] + "/" + more);
    }
  }

  lemma {:induction false} JoinUndoesSplit(path: string)
    ensures JoinSlashes(Split(path)) == path
    decreases |path|
  {
    if path != "" {
      JoinUndoesSplit(path[1..]);
      var rest := Split(path[1..]);
      if path[0] == '/' {
        assert ([""] + rest)[1..] == rest;
        assert "" + "/" + path[1..] == path;
      } else {
        JoinAfterChar(path[0], rest);
        assert path == [path[0]] + path[1..];
      }
    }
  }

  /** Where a path leads from a directory, as a file system walks it; `None` above the root. */
  function Walk(directory: seq<string>, segments: seq<string>): Option<seq<string>>
    decreases |segments|
  {
    if segments == [] then Some(directory)
    else if segments[0] == "" || segments[0] == "." then Walk(directory, segments[1..])
    else if segments[0] == ".." then
      if directory == [] then None else Walk(directory[..|directory| - 1], segments[1..])
    else Walk(directory + [segments[0]], segments[1..])
  }

  lemma {:induction false} SafeSegmentsWalkDown(directory: seq<string>, segments: seq<string>)
    requires forall i :: 0 <= i < |segments| ==> SafeSegment(segments[i])
    ensures Walk(directory, segments) == Some(directory + segments)
    decreases |segments|
  {
    if segments == [] {
      assert directory + segments == directory;
    } else {
      SafeSegmentsWalkDown(directory + [segments[0]], segments[1..]);
      assert directory + [segments[0]] + segments[1..] == directory + segments;
    }
  }

  /** An accepted path stays below the directory it is unpacked in, and two of them never meet. */
  lemma {:induction false} SafePathsStayInsideAndApart(directory: seq<string>, path: string, other: string)
    requires PathIsSafe(path) && PathIsSafe(other)
    ensures var place := Walk(directory, Split(path));
      && place.Some? && |place.value| > |directory| && place.value[..|directory|] == directory
      && (place == Walk(directory, Split(other)) <==> path == other)
  {
    SafeSegmentsWalkDown(directory, Split(path));
    SafeSegmentsWalkDown(directory, Split(other));
    assert (directory + Split(path))[|directory|..] == Split(path);
    assert (directory + Split(other))[|directory|..] == Split(other);
    JoinUndoesSplit(path);
    JoinUndoesSplit(other);
  }

  predicate NoSlash(segment: string) {
    '/' !in segment
  }

  lemma {:induction false} SplitOfSegment(segment: string, rest: string)
    requires NoSlash(segment)
    ensures Split(segment) == [segment]
    ensures Split(segment + "/" + rest) == [segment] + Split(rest)
    decreases |segment|
  {
    var path := segment + "/" + rest;
    if segment == "" {
      assert path[1..] == rest;
    } else {
      SplitOfSegment(segment[1..], rest);
      assert path[1..] == segment[1..] + "/" + rest && path[0] == segment[0];
      assert segment == [segment[0]] + segment[1..];
    }
  }

  lemma {:induction false} SplitUndoesJoin(segments: seq<string>)
    requires segments != [] && forall i :: 0 <= i < |segments| ==> NoSlash(segments[i])
    ensures Split(JoinSlashes(segments)) == segments
    decreases |segments|
  {
    if |segments| == 1 {
      SplitOfSegment(segments[0], "");
      assert segments == [segments[0]];
    } else {
      SplitUndoesJoin(segments[1..]);
      SplitOfSegment(segments[0], JoinSlashes(segments[1..]));
      assert segments == [segments[0]] + segments[1..];
    }
  }

  /** Segments without slashes make an accepted path exactly when none is empty, `.` or `..` or holds a backslash. */
  lemma {:induction false} PathIsSafeExactlyWhen(segments: seq<string>)
    requires segments != [] && forall i :: 0 <= i < |segments| ==> NoSlash(segments[i])
    ensures PathIsSafe(JoinSlashes(segments)) <==>
      forall i :: 0 <= i < |segments| ==>
        segments[i] != "" && segments[i] != "." && segments[i] != ".." && '\\' !in segments[i]
  {
    SplitUndoesJoin(segments);
    BackslashesOfJoin(segments);
    var path := JoinSlashes(segments);
    if path == "" || path[0] == '/' {
      assert Split(path)[0] == "";
    }
  }

  lemma {:induction false} BackslashesOfJoin(segments: seq<string>)
    requires segments != []
    ensures '\\' in JoinSlashes(segments) <==> exists i :: 0 <= i < |segments| && '\\' in segments[i]
    decreases |segments|
  {
    if |segments| > 1 {
      BackslashesOfJoin(segments[1..]);
      assert forall i :: 1 <= i < |segments| ==> segments[i] == segments[1..][i - 1];
      assert '\\' in JoinSlashes(segments) <==> '\\' in segments[0] || '\\' in JoinSlashes(segments[1..]);
    }
  }

  // ----- media types -----

  /** The class `[a-z0-9]` under the flags `iu`, which also fold the long s and the Kelvin sign. */
  predicate IsTypeStart(c: char) {
    'a' <= c <= 'z' || 'A' <= c <= 'Z' || IsDigit(c) || c as int == 0x17F || c as int == 0x212A
  }

  predicate IsTypeName(s: string) {
    |s| >= 2 && IsTypeStart(s[0])
    && forall i :: 0 <= i < |s| ==> IsTypeStart(s[i]) || s[i] == '.' || s[i] == '+' || s[i] == '-'
  }

  predicate MediaTypeIsValid(s: string) {
    exists i :: 0 <= i < |s| && s[i] == '/' && IsTypeName(s[..i]) && IsTypeName(s[i + 1..])
  }

  /** Two names on either side of the one slash; with no slash there is no media type. */
  lemma MediaTypeHasTwoNames(major: string, minor: string)
    requires NoSlash(major) && NoSlash(minor)
    ensures MediaTypeIsValid(major + "/" + minor) <==> IsTypeName(major) && IsTypeName(minor)
    ensures !MediaTypeIsValid(major)
  {
    var s := major + "/" + minor;
    assert s[..|major|] == major && s[|major| + 1..] == minor;
    assert forall i :: 0 <= i < |s| && s[i] == '/' ==> i == |major|;
  }

  predicate IsLetterOrDigit(c: char) {
    c in Base64.UPPER || c in Base64.LOWER || c in Base64.DIGITS
  }

  lemma NameStarts(c: char)
    requires (c as int) < 128
    ensures IsTypeStart(c) <==> IsLetterOrDigit(c)
  {
    Base64.UpperExactly(c);
    Base64.LowerExactly(c);
    Base64.DigitExactly(c);
  }

  /** A name in ASCII is a letter or digit, and then one or more of those or of `.`, `+` and `-`. */
  lemma NamesExactly(name: string)
    requires forall i :: 0 <= i < |name| ==> (name[i] as int) < 128
    ensures IsTypeName(name) <==>
      && |name| >= 2 && IsLetterOrDigit(name[0])
      && forall i :: 1 <= i < |name| ==> IsLetterOrDigit(name[i]) || name[i] in ".+-"
  {
    forall i | 0 <= i < |name| ensures IsTypeStart(name[i]) <==> IsLetterOrDigit(name[i]) {
      NameStarts(name[i]);
    }
  }

  const UNSAFE_PATH := "export entry path is unsafe"
  const INVALID_MEDIA_TYPE := "export entry media type is invalid"

  /** `assertEntry`: what it throws, if anything. */
  function EntryProblem(path: string, mediaType: string): Option<string> {
    if !PathIsSafe(path) then Some(UNSAFE_PATH)
    else if !MediaTypeIsValid(mediaType) then Some(INVALID_MEDIA_TYPE)
    else None
  }
}
