/** The editing helpers of the Angular project form: the comma-separated
    tag field, the screenshot list with its move buttons, and the queue of
    files picked for upload. Server calls appear as the request the form
    sends together with the reply it gets, given as a parameter. */
module ProjectForm {
  import opened Common
  import opened Seqs
  import Text

  /** A screenshot as the form holds it; `id` is absent until stored. */
  datatype FormScreenshot = FormScreenshot(id: Option<int>, url: string, altText: Option<string>, sortOrder: int)

  /** A browser `File`, as far as the form reads it. */
  datatype File = File(name: string, mimeType: string)

  /** An entry of `pendingFiles`; the object-URL preview is not modelled. */
  datatype PendingFile = PendingFile(file: File, altText: string)

  /** `reorderScreenshots(projectId, ids)`; an id the form does not know
      yet (`s.id!` on an unsaved screenshot) is sent as absent. */
  datatype ReorderCall = ReorderCall(projectId: int, ids: seq<Option<int>>)

  /** `uploadScreenshot(projectId!, file, altText || undefined, sortOrder)`. */
  datatype UploadCall = UploadCall(projectId: Option<int>, file: File, altText: Option<string>, sortOrder: int)

  /** `deleteScreenshot(projectId, screenshotId)`. */
  datatype DeleteCall = DeleteCall(projectId: int, screenshotId: int)

  /** How an awaited upload ends: with the stored screenshot, with no
      body, or with an error. */
  datatype UploadReply = Uploaded(screenshot: FormScreenshot) | NoContent | UploadFailed

  /* ---------------------------------------------------------------- */
  /*  Tag field                                                         */
  /* ---------------------------------------------------------------- */

  function NonEmptyTag(s: string): bool { |s| > 0 }

  function TrimTag(s: string): string { Text.Trim(s) }

  /** A tag as the parser produces it. */
  predicate WellFormedTag(t: string) {
    |t| > 0 && Text.IsTrimmed(t) && ',' !in t
  }

  /** `split(',')`, `trim` of each piece, empty pieces dropped. */
  function ParseTags(input: string): (tags: seq<string>)
    ensures forall i :: 0 <= i < |tags| ==> WellFormedTag(tags[i])
  {
    var pieces := Text.Split(input, ',');
    var tags := Filter(Map(pieces, TrimTag), NonEmptyTag);
    TrimmedPiecesWellFormed(pieces, tags);
    tags
  }

  /** Trimming comma-free pieces and dropping the empty ones leaves
      well-formed tags. */
  lemma TrimmedPiecesWellFormed(pieces: seq<string>, tags: seq<string>)
    requires forall i :: 0 <= i < |pieces| ==> ',' !in pieces[i]
    requires tags == Filter(Map(pieces, TrimTag), NonEmptyTag)
    ensures forall i :: 0 <= i < |tags| ==> WellFormedTag(tags[i])
  {
    var trimmed := Map(pieces, TrimTag);
    FilterMembers(trimmed, NonEmptyTag);
    forall i | 0 <= i < |tags| ensures WellFormedTag(tags[i]) {
      assert tags[i] in trimmed;
      var k :| 0 <= k < |trimmed| && trimmed[k] == tags[i];
      TrimTagWellFormed(pieces[k]);
    }
  }

  /** A comma-free piece trims to a well-formed tag unless it is blank. */
  lemma TrimTagWellFormed(piece: string)
    requires ',' !in piece
    ensures NonEmptyTag(TrimTag(piece)) ==> WellFormedTag(TrimTag(piece))
  {
    Text.TrimKeepsAbsent(piece, ',');
  }

  /** A field without a comma is at most one tag. */
  lemma ParseOnePiece(a: string)
    requires ',' !in a
    ensures ParseTags(a) == if |Text.Trim(a)| > 0 then [Text.Trim(a)] else []
  {
    assert Text.Split(a, ',') == [a];
  }

  /** Tags come out in the order they were written: the text before the
      first comma gives the first tags, the rest the others. */
  lemma ParseTagsAppend(a: string, b: string)
    requires ',' !in a
    ensures ParseTags(a + [','] + b) == ParseTags(a) + ParseTags(b)
  {
    Text.SplitAtSeparator(a, ',', b);
    MapConcat([a], Text.Split(b, ','), TrimTag);
    FilterConcat(Map([a], TrimTag), Map(Text.Split(b, ','), TrimTag), NonEmptyTag);
    assert Text.Split(a, ',') == [a];
  }

  function Spaced(t: string): string { " " + t }

  /** `a + ", " + b` seen as a comma between `a` and the blank-led `b`. */
  lemma CommaBlank(a: string, b: string)
    ensures a + ", " + b == a + [','] + (" " + b)
    ensures " " + (a + ", " + b) == Spaced(a) + [','] + (" " + b)
  {
  }

  /** After the first tag, the pieces of `tags.join(', ')` are the tags
      with their leading blank. */
  lemma {:induction false} SplitSpacedJoin(tags: seq<string>)
    requires |tags| > 0
    requires forall i :: 0 <= i < |tags| ==> ',' !in tags[i]
    ensures Text.Split(" " + Text.Join(tags, ", "), ',') == Map(tags, Spaced)
    decreases |tags|
  {
    var t := tags[0];
    assert ',' !in Spaced(t);
    if |tags| == 1 {
      assert Text.IndexOf(Spaced(t), ',').None?;
    } else {
      var rest := tags[1..];
      var j := Text.Join(rest, ", ");
      SplitSpacedJoin(rest);
      assert Text.Join(tags, ", ") == t + ", " + j;
      CommaBlank(t, j);
      Text.SplitAtSeparator(Spaced(t), ',', " " + j);
      assert tags == [t] + rest;
      MapConcat([t], rest, Spaced);
    }
  }

  /** The pieces of `tags.join(', ')`: the first tag, then the others with
      their leading blank. */
  lemma SplitJoinedTags(tags: seq<string>)
    requires |tags| > 0
    requires forall i :: 0 <= i < |tags| ==> ',' !in tags[i]
    ensures Text.Split(Text.Join(tags, ", "), ',') == [tags[0]] + Map(tags[1..], Spaced)
  {
    var t := tags[0];
    if |tags| == 1 {
      assert Text.IndexOf(t, ',').None?;
    } else {
      var j := Text.Join(tags[1..], ", ");
      SplitSpacedJoin(tags[1..]);
      assert Text.Join(tags, ", ") == t + ", " + j;
      CommaBlank(t, j);
      Text.SplitAtSeparator(t, ',', " " + j);
    }
  }

  /** A well-formed tag, with or without a leading blank, trims to itself. */
  lemma TrimTagOf(piece: string, tag: string, spaced: bool)
    requires WellFormedTag(tag) && piece == if spaced then " " + tag else tag
    ensures TrimTag(piece) == tag
  {
    if spaced {
      Text.TrimLeadingBlank(tag);
    } else {
      Text.TrimOfTrimmed(tag);
    }
  }

  /** Trimming those pieces gives the tags back. */
  lemma TrimJoinedPieces(tags: seq<string>)
    requires |tags| > 0
    requires forall i :: 0 <= i < |tags| ==> WellFormedTag(tags[i])
    ensures Map([tags[0]] + Map(tags[1..], Spaced), TrimTag) == tags
  {
    var pieces := [tags[0]] + Map(tags[1..], Spaced);
    forall i | 0 <= i < |tags| ensures TrimTag(pieces[i]) == tags[i] {
      PieceTrims(tags, i);
    }
  }

  /** The piece at position `i` trims to the tag at `i`. */
  lemma PieceTrims(tags: seq<string>, i: int)
    requires 0 <= i < |tags| && WellFormedTag(tags[i])
    ensures TrimTag(([tags[0]] + Map(tags[1..], Spaced))[i]) == tags[i]
  {
    var pieces := [tags[0]] + Map(tags[1..], Spaced);
    if i == 0 {
      TrimTagOf(pieces[0], tags[0], false);
    } else {
      assert pieces[i] == Map(tags[1..], Spaced)[i - 1] == Spaced(tags[i]);
      TrimTagOf(pieces[i], tags[i], true);
    }
  }

  /** Editing round trip: the form shows a project's tags as
      `tags.join(', ')`, and submitting the field unchanged sends the same
      tags back. */
  lemma ParseJoinedTags(tags: seq<string>)
    requires forall i :: 0 <= i < |tags| ==> WellFormedTag(tags[i])
    ensures ParseTags(Text.Join(tags, ", ")) == tags
  {
    if |tags| == 0 {
      ParseOnePiece("");
      Text.TrimOfTrimmed("");
    } else {
      var pieces := [tags[0]] + Map(tags[1..], Spaced);
      SplitJoinedTags(tags);
      assert Text.Split(Text.Join(tags, ", "), ',') == pieces;
      TrimJoinedPieces(tags);
      assert Map(pieces, TrimTag) == tags;
      FilterAll(tags, NonEmptyTag);
    }
  }

  /* ---------------------------------------------------------------- */
  /*  Screenshot list                                                  */
  /* ---------------------------------------------------------------- */

  /** The list with positions `i` and `j` exchanged. */
  function Swapped(s: seq<FormScreenshot>, i: int, j: int): (r: seq<FormScreenshot>)
    requires 0 <= i < |s| && 0 <= j < |s|
    ensures |r| == |s| && r[i] == s[j] && r[j] == s[i]
    ensures forall k :: 0 <= k < |s| && k != i && k != j ==> r[k] == s[k]
    ensures multiset(r) == multiset(s)
  {
    s[i := s[j]][j := s[i]]
  }

  /** Every screenshot given its position as `sortOrder`, nothing else
      changed. */
  function Renumbered(s: seq<FormScreenshot>): (r: seq<FormScreenshot>)
    ensures |r| == |s|
    ensures forall k :: 0 <= k < |s| ==> r[k].sortOrder == k
    ensures forall k :: 0 <= k < |s| ==>
      r[k].id == s[k].id && r[k].url == s[k].url && r[k].altText == s[k].altText
  {
    seq(|s|, k requires 0 <= k < |s| => s[k].(sortOrder := k))
  }

  /** The list after `moveScreenshot(index, direction)`: unchanged when the
      neighbour is outside the list, else swapped with it and renumbered. */
  function Moved(s: seq<FormScreenshot>, index: int, direction: int): (r: seq<FormScreenshot>)
    requires 0 <= index < |s|
    ensures |r| == |s|
    ensures !(0 <= index + direction < |s|) ==> r == s
    ensures 0 <= index + direction < |s| ==> forall k :: 0 <= k < |r| ==> r[k].sortOrder == k
  {
    var target := index + direction;
    if target < 0 || target >= |s| then s else Renumbered(Swapped(s, index, target))
  }

  /** A move is a swap: the moved list holds the same screenshots, the two
      at `index` and its neighbour exchanged, every other one in place. */
  lemma MovedIsSwap(s: seq<FormScreenshot>, index: int, direction: int)
    requires 0 <= index < |s| && 0 <= index + direction < |s|
    ensures var r := Moved(s, index, direction);
      var t := index + direction;
      r[index] == s[t].(sortOrder := index) && r[t] == s[index].(sortOrder := t) &&
      forall k :: 0 <= k < |s| && k != index && k != t ==> r[k] == s[k].(sortOrder := k)
  {
  }

  /** Moving a screenshot down and then back up restores the order; only
      the sort orders are normalised to the positions. */
  lemma MoveDownThenUp(s: seq<FormScreenshot>, index: int)
    requires 0 <= index && index + 1 < |s|
    ensures Moved(Moved(s, index, 1), index + 1, -1) == Renumbered(s)
  {
    var once := Moved(s, index, 1);
    var twice := Moved(once, index + 1, -1);
    assert twice == Renumbered(Swapped(once, index + 1, index));
    forall k | 0 <= k < |s| ensures twice[k] == Renumbered(s)[k] {
    }
  }

  function IdOf(s: FormScreenshot): Option<int> { s.id }

  function UploadAltText(altText: string): Option<string> {
    if altText == "" then None else Some(altText)
  }

  /** The requests `uploadPendingFiles` sends, one per queued file in
      queue order, the `i`th with sort order `currentCount + i`. */
  function UploadCalls(projectId: Option<int>, pending: seq<PendingFile>, currentCount: int): (r: seq<UploadCall>)
    ensures |r| == |pending|
    ensures forall i :: 0 <= i < |pending| ==> r[i].sortOrder == currentCount + i
    ensures forall i :: 0 <= i < |pending| ==>
      r[i].file == pending[i].file && r[i].projectId == projectId && r[i].altText == UploadAltText(pending[i].altText)
  {
    seq(|pending|, i requires 0 <= i < |pending| =>
      UploadCall(projectId, pending[i].file, UploadAltText(pending[i].altText), currentCount + i))
  }

  /** The screenshots the uploads came back with, in upload order. */
  function UploadedScreenshots(replies: seq<UploadReply>): (r: seq<FormScreenshot>)
    ensures |r| <= |replies|
    ensures forall k :: 0 <= k < |r| ==> Uploaded(r[k]) in replies
    decreases |replies|
  {
    if |replies| == 0 then []
    else
      var prev := UploadedScreenshots(replies[..|replies| - 1]);
      assert forall k :: 0 <= k < |prev| ==> Uploaded(prev[k]) in replies by {
        assert forall x :: x in replies[..|replies| - 1] ==> x in replies;
      }
      match replies[|replies| - 1]
      case Uploaded(s) => prev + [s]
      case _ => prev
  }

  predicate IsUploaded(reply: UploadReply) { reply.Uploaded? }

  function AsReply(s: FormScreenshot): UploadReply { Uploaded(s) }

  /** Every uploaded reply contributes its screenshot, in reply order: the
      uploaded replies are exactly the appended screenshots, each wrapped
      back into its reply. */
  lemma {:induction false} UploadedScreenshotsInOrder(replies: seq<UploadReply>)
    ensures Map(UploadedScreenshots(replies), AsReply) == Filter(replies, IsUploaded)
    decreases |replies|
  {
    if |replies| > 0 {
      var n := |replies| - 1;
      var prev := UploadedScreenshots(replies[..n]);
      UploadedScreenshotsInOrder(replies[..n]);
      match replies[n]
      case Uploaded(s) =>
        MapConcat(prev, [s], AsReply);
      case _ =>
    }
  }

  function UploadFailedMessage(fileName: string): string {
    "Failed to upload \"" + fileName + "\"."
  }

  /** The error message after the uploads: the one for the last failed
      file, or the earlier message when none failed. */
  function UploadError(before: Option<string>, pending: seq<PendingFile>, replies: seq<UploadReply>): (r: Option<string>)
    requires |replies| == |pending|
    ensures r == before || exists i :: 0 <= i < |replies| && replies[i].UploadFailed? && r == Some(UploadFailedMessage(pending[i].file.name))
    decreases |replies|
  {
    if |replies| == 0 then before
    else
      var n := |replies| - 1;
      if replies[n].UploadFailed? then Some(UploadFailedMessage(pending[n].file.name))
      else
        var r := UploadError(before, pending[..n], replies[..n]);
        assert r != before ==> exists i :: 0 <= i < |replies| && replies[i].UploadFailed? && r == Some(UploadFailedMessage(pending[i].file.name)) by {
          if r != before {
            var i :| 0 <= i < n && replies[..n][i].UploadFailed? && r == Some(UploadFailedMessage(pending[..n][i].file.name));
            assert replies[i] == replies[..n][i] && pending[i] == pending[..n][i];
          }
        }
        r
  }

  /** Without a failed upload the earlier message stays. */
  lemma {:induction false} UploadErrorWithoutFailure(before: Option<string>, pending: seq<PendingFile>, replies: seq<UploadReply>)
    requires |replies| == |pending|
    requires forall i :: 0 <= i < |replies| ==> !replies[i].UploadFailed?
    ensures UploadError(before, pending, replies) == before
    decreases |replies|
  {
    if |replies| > 0 {
      var n := |replies| - 1;
      UploadErrorWithoutFailure(before, pending[..n], replies[..n]);
    }
  }

  /** The message names the last file whose upload failed. */
  lemma {:induction false} UploadErrorNamesLastFailure(before: Option<string>, pending: seq<PendingFile>, replies: seq<UploadReply>, i: int)
    requires |replies| == |pending|
    requires 0 <= i < |replies| && replies[i].UploadFailed?
    requires forall j :: i < j < |replies| ==> !replies[j].UploadFailed?
    ensures UploadError(before, pending, replies) == Some(UploadFailedMessage(pending[i].file.name))
    decreases |replies|
  {
    var n := |replies| - 1;
    if i < n {
      UploadErrorNamesLastFailure(before, pending[..n], replies[..n], i);
    }
  }

  /** One more upload, as the loop of `uploadPendingFiles` takes it. */
  lemma UploadStep(projectId: Option<int>, pending: seq<PendingFile>, replies: seq<UploadReply>,
                   before: Option<string>, currentCount: int, i: int)
    requires |replies| == |pending| && 0 <= i < |pending|
    ensures UploadCalls(projectId, pending[..i + 1], currentCount) ==
      UploadCalls(projectId, pending[..i], currentCount) +
      [UploadCall(projectId, pending[i].file, UploadAltText(pending[i].altText), currentCount + i)]
    ensures UploadedScreenshots(replies[..i + 1]) == UploadedScreenshots(replies[..i]) +
      (if replies[i].Uploaded? then [replies[i].screenshot] else [])
    ensures UploadError(before, pending[..i + 1], replies[..i + 1]) ==
      if replies[i].UploadFailed? then Some(UploadFailedMessage(pending[i].file.name))
      else UploadError(before, pending[..i], replies[..i])
  {
    assert replies[..i + 1][..i] == replies[..i];
    assert pending[..i + 1][..i] == pending[..i];
  }

  /** `file.type.startsWith('image/')`. */
  function IsImage(f: File): (r: bool)
    ensures r <==> |f.mimeType| >= 6 && f.mimeType[..6] == "image/"
  {
    Text.StartsWith(f.mimeType, "image/")
  }

  function Queued(f: File): PendingFile { PendingFile(f, "") }

  const ReorderFailedMessage := "Failed to reorder screenshots."
  const DeleteFailedMessage := "Failed to delete screenshot."

  /** A JavaScript number used as a condition: absent or 0 is false. */
  predicate Truthy(n: Option<int>) { n.Some? && n.value != 0 }

  /** The `forEach` that gives each screenshot of the copied list its
      position as sort order. */
  method RenumberInPlace(s: seq<FormScreenshot>) returns (list: seq<FormScreenshot>)
    ensures list == Renumbered(s)
  {
    list := s;
    for i := 0 to |list|
      invariant |list| == |s|
      invariant forall k :: 0 <= k < i ==> list[k] == s[k].(sortOrder := k)
      invariant forall k :: i <= k < |list| ==> list[k] == s[k]
    {
      list := list[i := list[i].(sortOrder := i)];
    }
  }

  /** The component's state: `null` as `projectId` is create mode. */
  class ProjectFormComponent {
    var projectId: Option<int>
    var screenshots: seq<FormScreenshot>
    var pendingFiles: seq<PendingFile>
    var errorMessage: Option<string>

    constructor(projectId: Option<int>, screenshots: seq<FormScreenshot>)
      ensures this.projectId == projectId && this.screenshots == screenshots
      ensures pendingFiles == [] && errorMessage == None
    {
      this.projectId, this.screenshots := projectId, screenshots;
      pendingFiles, errorMessage := [], None;
    }

    /** `moveScreenshot`: a copy of the list is swapped and renumbered in
        place and replaces the old one; in edit mode the new order is sent,
        and a failed reply sets the error message. */
    method MoveScreenshot(index: int, direction: int, reorderFails: bool) returns (call: Option<ReorderCall>)
      requires direction == -1 || direction == 1
      requires 0 <= index < |screenshots|
      modifies this
      ensures screenshots == Moved(old(screenshots), index, direction)
      ensures call.Some? <==> 0 <= index + direction < |screenshots| && Truthy(projectId)
      ensures call.Some? ==> call.value == ReorderCall(projectId.value, Map(screenshots, IdOf))
      ensures errorMessage == if call.Some? && reorderFails then Some(ReorderFailedMessage) else old(errorMessage)
      ensures projectId == old(projectId) && pendingFiles == old(pendingFiles)
    {
      var list := screenshots;
      var target := index + direction;
      if target < 0 || target >= |list| {
        return None;
      }
      ghost var swapped := Swapped(list, index, target);
      list := list[index := list[target]][target := list[index]];
      assert list == swapped;
      list := RenumberInPlace(list);
      assert list == Moved(screenshots, index, direction);
      screenshots := list;
      if Truthy(projectId) {
        call := Some(ReorderCall(projectId.value, Map(list, IdOf)));
        if reorderFails {
          errorMessage := Some(ReorderFailedMessage);
        }
      } else {
        call := None;
      }
    }

    /** `onFilesSelected`: no file list, nothing queued; otherwise the
        images among the files are queued, in order, with no alt text. */
    method OnFilesSelected(files: Option<seq<File>>)
      modifies this
      ensures pendingFiles == old(pendingFiles) + (if files.None? then [] else Map(Filter(files.value, IsImage), Queued))
      ensures projectId == old(projectId) && screenshots == old(screenshots) && errorMessage == old(errorMessage)
    {
      if files.None? {
        return;
      }
      var fs := files.value;
      for i := 0 to |fs|
        invariant pendingFiles == old(pendingFiles) + Map(Filter(fs[..i], IsImage), Queued)
        invariant projectId == old(projectId) && screenshots == old(screenshots) && errorMessage == old(errorMessage)
      {
        FilterMapPrefix(fs, i, IsImage, Queued);
        if IsImage(fs[i]) {
          pendingFiles := pendingFiles + [Queued(fs[i])];
        }
      }
      assert fs[..|fs|] == fs;
    }

    /** `removePendingFile`: the entry at `index` leaves the queue. */
    method RemovePendingFile(index: int)
      requires 0 <= index < |pendingFiles|
      modifies this
      ensures pendingFiles == old(pendingFiles)[..index] + old(pendingFiles)[index + 1..]
      ensures projectId == old(projectId) && screenshots == old(screenshots) && errorMessage == old(errorMessage)
    {
      pendingFiles := pendingFiles[..index] + pendingFiles[index + 1..];
    }

    /** `uploadPendingFiles`: the queued files are uploaded one after the
        other, numbered from the current screenshot count; each stored
        screenshot is appended, each failure sets the message; the queue is
        emptied. `replies[i]` is how the `i`th upload ends. */
    method UploadPendingFiles(replies: seq<UploadReply>) returns (calls: seq<UploadCall>)
      requires |replies| == |pendingFiles|
      modifies this
      ensures calls == UploadCalls(old(projectId), old(pendingFiles), |old(screenshots)|)
      ensures screenshots == old(screenshots) + UploadedScreenshots(replies)
      ensures errorMessage == UploadError(old(errorMessage), old(pendingFiles), replies)
      ensures pendingFiles == [] && projectId == old(projectId)
    {
      calls := [];
      if |pendingFiles| == 0 {
        return;
      }
      var currentCount := |screenshots|;
      for i := 0 to |pendingFiles|
        invariant pendingFiles == old(pendingFiles) && projectId == old(projectId)
        invariant calls == UploadCalls(projectId, pendingFiles[..i], currentCount)
        invariant screenshots == old(screenshots) + UploadedScreenshots(replies[..i])
        invariant errorMessage == UploadError(old(errorMessage), pendingFiles[..i], replies[..i])
      {
        var pending := pendingFiles[i];
        var call := UploadCall(projectId, pending.file, UploadAltText(pending.altText), currentCount + i);
        UploadStep(projectId, pendingFiles, replies, old(errorMessage), currentCount, i);
        calls := calls + [call];
        match replies[i]
        case Uploaded(s) =>
          screenshots := screenshots + [s];
        case NoContent =>
        case UploadFailed =>
          errorMessage := Some(UploadFailedMessage(pending.file.name));
      }
      assert replies[..|replies|] == replies;
      assert pendingFiles[..|pendingFiles|] == pendingFiles;
      pendingFiles := [];
    }

    /** `removeScreenshot`: only a stored screenshot of a stored project is
        deleted; when the server confirms, it leaves the list (the screenshot
        is named by its position), otherwise the message is set. */
    method RemoveScreenshot(index: int, deleteFails: bool) returns (call: Option<DeleteCall>)
      requires 0 <= index < |screenshots|
      modifies this
      ensures call.Some? <==> Truthy(old(screenshots)[index].id) && Truthy(projectId)
      ensures call.Some? ==> call.value == DeleteCall(projectId.value, old(screenshots)[index].id.value)
      ensures screenshots == if call.Some? && !deleteFails then old(screenshots)[..index] + old(screenshots)[index + 1..] else old(screenshots)
      ensures errorMessage == if call.Some? && deleteFails then Some(DeleteFailedMessage) else old(errorMessage)
      ensures projectId == old(projectId) && pendingFiles == old(pendingFiles)
    {
      var shot := screenshots[index];
      if !Truthy(shot.id) || !Truthy(projectId) {
        return None;
      }
      call := Some(DeleteCall(projectId.value, shot.id.value));
      if deleteFails {
        errorMessage := Some(DeleteFailedMessage);
      } else {
        screenshots := screenshots[..index] + screenshots[index + 1..];
      }
    }
  }
}
