/**
 * `DependencyController.upload_file`, past the file decoding: each non-empty
 * line `name==version` of a requirements file becomes a pinned package record.
 */
module Upload {

  import opened Wrappers
  import opened PyText
  import opened PyData

  /** `.replace('"', '').strip()` */
  function Clean(s: string): (r: string)
    ensures '"' !in r
    ensures IsStripOf(Without(s, '"'), r)
    ensures r == [] || (!IsSpace(r[0]) && !IsSpace(r[|r| - 1]))
  {
    Strip(Without(s, '"'))
  }

  /**
   * `name = line.strip().split("==")[0]` and
   * `version = line.strip().split(name + "==")[1]`, cleaned; `None` where
   * the index `[1]` raises.
   */
  function ParseLine(line: string): (r: Option<(string, string)>)
    ensures r.Some? ==> !Contains(r.value.0, "==") && '"' !in r.value.1
  {
    var stripped := Strip(line);
    SplitPiecesAvoidSeparator(stripped, "==");
    var name := Split(stripped, "==")[0];
    var pieces := Split(stripped, name + "==");
    if |pieces| < 2 then None else Some((name, Clean(pieces[1])))
  }

  /** The record `upload_file` stores for one pinned package. */
  function PinnedRecord(name: string, version: string, versions: seq<string>): Record
  {
    map["package_name" := Text(name), "curr_version" := Text(version), "list_versions" := TextList(versions),
        "reqd_versions" := TextList([]), "flag" := Flag(false)]
  }

  /** What the loop body does with one line. */
  datatype Line = Blank | Malformed | Pin(name: string, version: string)

  function ClassifyLine(line: string): Line
  {
    if line == [] then Blank
    else
      match ParseLine(line)
      case None => Malformed
      case Some((name, version)) => Pin(name, version)
  }

  function ClassifiedLines(lines: seq<string>): (kinds: seq<Line>)
    ensures |kinds| == |lines| && forall i :: 0 <= i < |lines| ==> kinds[i] == ClassifyLine(lines[i])
  {
    seq(|lines|, i requires 0 <= i < |lines| => ClassifyLine(lines[i]))
  }

  /**
   * One pass of the loop body. `versionsOf(name)` is the reply of
   * `get_available_versions(name)`: its `versions`, or `None` when that call
   * returned `None`, on which `"versions" in temp` raises.
   */
  function PinStep(found: Dict<Record>, kind: Line, versionsOf: string -> Option<seq<string>>): Reply<Dict<Record>>
  {
    match kind
    case Blank => Success(found)
    case Malformed => Failure
    case Pin(name, version) =>
      match versionsOf(name)
      case None => Failure
      case Some(versions) => Success(Put(found, name, PinnedRecord(name, version, versions)))
  }

  /** The loop over the lines; the first failing line ends it. */
  function CollectPins(kinds: seq<Line>, versionsOf: string -> Option<seq<string>>): Reply<Dict<Record>>
  {
    if kinds == [] then Success(EmptyDict())
    else
      match CollectPins(kinds[..|kinds| - 1], versionsOf)
      case Failure => Failure
      case Success(found) => PinStep(found, kinds[|kinds| - 1], versionsOf)
  }

  function Uploaded(lines: seq<string>, versionsOf: string -> Option<seq<string>>): Reply<Dict<Record>>
  {
    CollectPins(ClassifiedLines(lines), versionsOf)
  }

  lemma {:induction false} FailureIsFinal(kinds: seq<Line>, versionsOf: string -> Option<seq<string>>, i: nat)
    requires i <= |kinds| && CollectPins(kinds[..i], versionsOf).Failure?
    ensures CollectPins(kinds, versionsOf).Failure?
    decreases |kinds| - i
  {
    if i < |kinds| {
      assert kinds[..i + 1][..i] == kinds[..i];
      FailureIsFinal(kinds, versionsOf, i + 1);
    } else {
      assert kinds[..i] == kinds;
    }
  }

  /** The prefix fold advances by one `PinStep`. */
  lemma CollectPinsNext(kinds: seq<Line>, versionsOf: string -> Option<seq<string>>, i: nat, found: Dict<Record>)
    requires i < |kinds| && CollectPins(kinds[..i], versionsOf) == Success(found)
    ensures CollectPins(kinds[..i + 1], versionsOf) == PinStep(found, kinds[i], versionsOf)
  {
    assert kinds[..i + 1][..i] == kinds[..i];
  }

  /** `upload_file` from the list of lines onwards. */
  method UploadFile(lines: seq<string>, versionsOf: string -> Option<seq<string>>) returns (r: Reply<Dict<Record>>)
    ensures r == Uploaded(lines, versionsOf)
  {
    ghost var kinds := ClassifiedLines(lines);
    var requirements: Dict<Record> := EmptyDict();
    var i := 0;
    while i < |lines|
      invariant 0 <= i <= |lines|
      invariant CollectPins(kinds[..i], versionsOf) == Success(requirements)
    {
      CollectPinsNext(kinds, versionsOf, i, requirements);
      var next := PinLine(requirements, lines[i], versionsOf);
      if next.Failure? {
        FailureIsFinal(kinds, versionsOf, i + 1);
        return Failure;
      }
      requirements := next.message;
      i := i + 1;
    }
    assert kinds[..i] == kinds;
    r := Success(requirements);
  }

  /** The loop body of `upload_file` on one line. */
  method PinLine(requirements: Dict<Record>, line: string, versionsOf: string -> Option<seq<string>>)
    returns (r: Reply<Dict<Record>>)
    ensures r == PinStep(requirements, ClassifyLine(line), versionsOf)
  {
    if line == [] {
      return Success(requirements);
    }
    var parsed := ParseLine(line);
    if parsed.None? {
      return Failure;
    }
    var (name, version) := parsed.value;
    var temp := versionsOf(name);
    if temp.None? {
      return Failure;
    }
    r := Success(Put(requirements, name, PinnedRecord(name, version, temp.value)));
  }

  /** A non-empty line parses exactly when its stripped text contains `==`. */
  lemma ParseLineSucceedsIff(line: string)
    ensures ParseLine(line).Some? <==> Contains(Strip(line), "==")
  {
    var s := Strip(line);
    if Contains(s, "==") {
      NameBeforeFirstSeparator(s);
    } else {
      NoSeparatorNoSecondPiece(s);
    }
  }

  /** Without `==`, the name is the whole text and `name==` cannot occur in it. */
  lemma NoSeparatorNoSecondPiece(s: string)
    requires !Contains(s, "==")
    ensures Split(s, "==")[0] == s && Split(s, s + "==") == [s]
  {
    SplitWithoutSeparator(s, "==");
    assert !Contains(s, s + "==");
    SplitWithoutSeparator(s, s + "==");
  }

  /**
   * The name is the text before the first `==`, and splitting at `name==`
   * leaves an empty first piece followed by the pieces of the rest.
   */
  lemma NameBeforeFirstSeparator(s: string)
    requires Contains(s, "==")
    ensures var name := Split(s, "==")[0];
      && StartsWith(s, name + "==")
      && !Contains(name, "==")
      && Split(s, name + "==") == [""] + Split(s[|name| + 2..], name + "==")
  {
    FindIsLeftmost(s, "==");
    var i := Find(s, "==").value;
    FirstPieceBeforeSeparator(s, i);
    LeadingName(s, i);
    var name := Split(s, "==")[0];
    assert name == s[..i];
  }

  lemma FirstPieceBeforeSeparator(s: string, i: nat)
    requires Find(s, "==") == Some(i)
    ensures i <= |s| && Split(s, "==")[0] == s[..i] && !Contains(s[..i], "==")
  {
    SplitFirstPiece(s, "==", i);
    SplitPiecesAvoidSeparator(s, "==");
  }

  lemma LeadingName(s: string, i: nat)
    requires OccursAt(s, "==", i)
    ensures StartsWith(s, s[..i] + "==")
    ensures Split(s, s[..i] + "==") == [""] + Split(s[i + 2..], s[..i] + "==")
  {
    var name := s[..i];
    var rest := s[i + 2..];
    assert s == (name + "==") + rest;
    SplitAfterLeadingSeparator(rest, name + "==");
  }

  /**
   * A parsed line is `name==version-part`: the name is the stripped text
   * before the first `==`, and the version is the text after it up to the
   * next `name==`, without double quotes and surrounding whitespace.
   */
  lemma ParseLineFields(line: string)
    requires ParseLine(line).Some?
    ensures var (name, version) := ParseLine(line).value;
      && StartsWith(Strip(line), name + "==")
      && !Contains(name, "==")
      && version == Clean(Split(Strip(line)[|name| + 2..], name + "==")[0])
  {
    var s := Strip(line);
    ParseLineSucceedsIff(line);
    NameBeforeFirstSeparator(s);
  }

  /**
   * Round trip: the line `name==version` of a name without `=` and a clean
   * version parses back to that name and version.
   */
  lemma ParseLineRoundTrip(name: string, version: string)
    requires '=' !in name && name != [] && !IsSpace(name[0])
    requires version != [] && !IsSpace(version[0]) && !IsSpace(version[|version| - 1])
    requires '"' !in version && !Contains(version, name + "==")
    ensures ParseLine(name + "==" + version) == Some((name, version))
  {
    var line := name + "==" + version;
    StripPinnedLine(name, version);
    assert A: Strip(line) == line;
    NameOfPinnedLine(name, version);
    assert B: Split(line, "==")[0] == name;
    PiecesOfPinnedLine(name, version);
    assert C: Split(line, name + "==") == ["", version];
    CleanVersionUnchanged(version);
    assert D: Clean(version) == version;
    assert E: Split(Strip(line), "==")[0] == name;
    assert F: |Split(Strip(line), name + "==")| >= 2;
    ParseLineFrom(line, name, version);
  }

  /** `ParseLine` from the name and the second piece it splits off. */
  lemma ParseLineFrom(line: string, name: string, piece: string)
    requires Split(Strip(line), "==")[0] == name
    requires |Split(Strip(line), name + "==")| >= 2 && Split(Strip(line), name + "==")[1] == piece
    ensures ParseLine(line) == Some((name, Clean(piece)))
  {
  }

  lemma CleanVersionUnchanged(version: string)
    requires version != [] && !IsSpace(version[0]) && !IsSpace(version[|version| - 1]) && '"' !in version
    ensures Clean(version) == version
  {
  }

  lemma PiecesOfPinnedLine(name: string, version: string)
    requires !Contains(version, name + "==")
    ensures Split(name + "==" + version, name + "==") == ["", version]
  {
    assert name + "==" + version == (name + "==") + version;
    SplitAfterLeadingSeparator(version, name + "==");
    SplitWithoutSeparator(version, name + "==");
  }

  lemma StripPinnedLine(name: string, version: string)
    requires name != [] && !IsSpace(name[0]) && version != [] && !IsSpace(version[|version| - 1])
    ensures Strip(name + "==" + version) == name + "==" + version
  {
    var line := name + "==" + version;
    assert line[0] == name[0] && line[|line| - 1] == version[|version| - 1];
  }

  lemma NameOfPinnedLine(name: string, version: string)
    requires '=' !in name
    ensures Split(name + "==" + version, "==")[0] == name
  {
    var line := name + "==" + version;
    FirstSeparatorAfterName(name, version);
    SplitFirstPiece(line, "==", |name|);
    assert line[..|name|] == name;
  }

  lemma FirstSeparatorAfterName(name: string, version: string)
    requires '=' !in name
    ensures Find(name + "==" + version, "==") == Some(|name|)
  {
    var line := name + "==" + version;
    assert OccursAt(line, "==", |name|);
    forall k: nat | k < |name| ensures !OccursAt(line, "==", k) {
      assert line[k] == name[k];
    }
    FindAt(line, "==", |name|);
  }

  /** A line of whitespace alone is not empty, so it is parsed, and its `[1]` raises. */
  lemma WhitespaceLineIsMalformed(line: string)
    requires line != [] && forall k :: 0 <= k < |line| ==> IsSpace(line[k])
    ensures ClassifyLine(line) == Malformed
  {
    StripAllSpace(line);
    ParseLineSucceedsIff(line);
  }

  /** Line kind `i` pins package `name`. */
  predicate PinsAt(kinds: seq<Line>, i: int, name: string)
  {
    0 <= i < |kinds| && kinds[i].Pin? && kinds[i].name == name
  }

  /** The upload fails exactly when a line is malformed or a pinned package gets no versions reply. */
  lemma {:induction false} CollectPinsFailIff(kinds: seq<Line>, versionsOf: string -> Option<seq<string>>)
    ensures CollectPins(kinds, versionsOf).Failure? <==>
            exists i :: 0 <= i < |kinds| && (kinds[i] == Malformed || (kinds[i].Pin? && versionsOf(kinds[i].name).None?))
  {
    if kinds != [] {
      var init := kinds[..|kinds| - 1];
      CollectPinsFailIff(init, versionsOf);
      if exists i :: 0 <= i < |init| && (init[i] == Malformed || (init[i].Pin? && versionsOf(init[i].name).None?)) {
        var i :| 0 <= i < |init| && (init[i] == Malformed || (init[i].Pin? && versionsOf(init[i].name).None?));
        assert init[i] == kinds[i];
      }
      if exists i :: 0 <= i < |kinds| && (kinds[i] == Malformed || (kinds[i].Pin? && versionsOf(kinds[i].name).None?)) {
        var i :| 0 <= i < |kinds| && (kinds[i] == Malformed || (kinds[i].Pin? && versionsOf(kinds[i].name).None?));
        if i < |init| {
          assert init[i] == kinds[i];
        }
      }
    }
  }

  /** On success the keys are exactly the names of the pinned lines. */
  lemma {:induction false} CollectPinsKeys(kinds: seq<Line>, versionsOf: string -> Option<seq<string>>, name: string)
    requires CollectPins(kinds, versionsOf).Success?
    ensures name in CollectPins(kinds, versionsOf).message.entries <==> exists i :: PinsAt(kinds, i, name)
  {
    if kinds != [] {
      var init := kinds[..|kinds| - 1];
      var last := |kinds| - 1;
      CollectPinsKeys(init, versionsOf, name);
      if exists i :: PinsAt(kinds, i, name) {
        var i :| PinsAt(kinds, i, name);
        if i < last {
          assert PinsAt(init, i, name);
        }
      }
      if name in CollectPins(kinds, versionsOf).message.entries && name !in CollectPins(init, versionsOf).message.entries {
        assert PinsAt(kinds, last, name);
      }
      if exists i :: PinsAt(init, i, name) {
        var i :| PinsAt(init, i, name);
        assert PinsAt(kinds, i, name);
      }
    }
  }

  /**
   * Each key holds the record of the LAST line with that name: its version,
   * the versions reply, no required versions and `flag` false.
   */
  lemma {:induction false} CollectPinsLastWins(kinds: seq<Line>, versionsOf: string -> Option<seq<string>>, i: int, name: string)
    requires CollectPins(kinds, versionsOf).Success?
    requires PinsAt(kinds, i, name)
    requires forall j :: i < j < |kinds| ==> !PinsAt(kinds, j, name)
    ensures versionsOf(name).Some? && name in CollectPins(kinds, versionsOf).message.entries
    ensures CollectPins(kinds, versionsOf).message.entries[name] == PinnedRecord(name, kinds[i].version, versionsOf(name).value)
  {
    var init := kinds[..|kinds| - 1];
    var last := |kinds| - 1;
    if i < last {
      assert PinsAt(init, i, name);
      forall j | i < j < |init| ensures !PinsAt(init, j, name) {
        assert !PinsAt(kinds, j, name);
      }
      CollectPinsLastWins(init, versionsOf, i, name);
      assert !PinsAt(kinds, last, name);
    }
  }

  /** Empty lines contribute nothing: removing one leaves the reply unchanged. */
  lemma {:induction false} BlankLinesIgnored(before: seq<string>, after: seq<string>, versionsOf: string -> Option<seq<string>>)
    ensures Uploaded(before + [""] + after, versionsOf) == Uploaded(before + after, versionsOf)
  {
    var kb, ka := ClassifiedLines(before), ClassifiedLines(after);
    ClassifiedLinesConcat(before + [""], after);
    ClassifiedLinesConcat(before, [""]);
    ClassifiedLinesConcat(before, after);
    assert ClassifiedLines([""]) == [Blank];
    BlankKindIgnored(kb, ka, versionsOf);
  }

  lemma ClassifiedLinesConcat(a: seq<string>, b: seq<string>)
    ensures ClassifiedLines(a + b) == ClassifiedLines(a) + ClassifiedLines(b)
  {
    var ka, kb := ClassifiedLines(a), ClassifiedLines(b);
    forall k | 0 <= k < |a| + |b| ensures ClassifiedLines(a + b)[k] == (ka + kb)[k] {
      if k < |a| {
        assert (a + b)[k] == a[k];
      } else {
        assert (a + b)[k] == b[k - |a|];
      }
    }
  }

  lemma {:induction false} BlankKindIgnored(before: seq<Line>, after: seq<Line>, versionsOf: string -> Option<seq<string>>)
    ensures CollectPins(before + [Blank] + after, versionsOf) == CollectPins(before + after, versionsOf)
    decreases |after|
  {
    if after == [] {
      assert (before + [Blank] + after)[..|before|] == before;
      assert before + after == before;
    } else {
      var init := after[..|after| - 1];
      BlankKindIgnored(before, init, versionsOf);
      assert (before + [Blank] + after)[..|before + [Blank] + after| - 1] == before + [Blank] + init;
      assert (before + after)[..|before + after| - 1] == before + init;
    }
  }

  /** The keys of a successful upload are the names of its non-blank lines. */
  lemma UploadedKeys(lines: seq<string>, versionsOf: string -> Option<seq<string>>, name: string)
    requires Uploaded(lines, versionsOf).Success?
    ensures name in Uploaded(lines, versionsOf).message.entries <==>
            exists i :: 0 <= i < |lines| && lines[i] != [] && ParseLine(lines[i]).Some? && ParseLine(lines[i]).value.0 == name
  {
    var kinds := ClassifiedLines(lines);
    CollectPinsKeys(kinds, versionsOf, name);
    if exists i :: PinsAt(kinds, i, name) {
      var i :| PinsAt(kinds, i, name);
      assert lines[i] != [] && ParseLine(lines[i]).Some? && ParseLine(lines[i]).value.0 == name;
    }
    if exists i :: 0 <= i < |lines| && lines[i] != [] && ParseLine(lines[i]).Some? && ParseLine(lines[i]).value.0 == name {
      var i :| 0 <= i < |lines| && lines[i] != [] && ParseLine(lines[i]).Some? && ParseLine(lines[i]).value.0 == name;
      assert PinsAt(kinds, i, name);
    }
  }

  /**
   * A line that makes the upload raise: it is not empty, and either it does
   * not parse (its stripped text has no `==`, by `ParseLineSucceedsIff`) or
   * its package gets no versions reply.
   */
  predicate RejectedLine(line: string, versionsOf: string -> Option<seq<string>>)
  {
    line != [] && (ParseLine(line).None? || versionsOf(ParseLine(line).value.0).None?)
  }

  lemma RejectedLineIff(line: string, versionsOf: string -> Option<seq<string>>)
    ensures RejectedLine(line, versionsOf) <==>
            var kind := ClassifyLine(line); kind == Malformed || (kind.Pin? && versionsOf(kind.name).None?)
  {
    if line != [] {
      ParseLineSucceedsIff(line);
    }
  }

  /** The upload fails exactly when some line is rejected. */
  lemma UploadedFailIff(lines: seq<string>, versionsOf: string -> Option<seq<string>>)
    ensures Uploaded(lines, versionsOf).Failure? <==> exists i :: 0 <= i < |lines| && RejectedLine(lines[i], versionsOf)
  {
    var kinds := ClassifiedLines(lines);
    CollectPinsFailIff(kinds, versionsOf);
    if exists i :: 0 <= i < |kinds| && (kinds[i] == Malformed || (kinds[i].Pin? && versionsOf(kinds[i].name).None?)) {
      var i :| 0 <= i < |kinds| && (kinds[i] == Malformed || (kinds[i].Pin? && versionsOf(kinds[i].name).None?));
      RejectedLineIff(lines[i], versionsOf);
    }
    if exists i :: 0 <= i < |lines| && RejectedLine(lines[i], versionsOf) {
      var i :| 0 <= i < |lines| && RejectedLine(lines[i], versionsOf);
      RejectedLineIff(lines[i], versionsOf);
      assert kinds[i] == ClassifyLine(lines[i]);
    }
  }
}
