/** The create-content dialog: the description editor's formatting buttons,
    the tag list, the auto-fill merge of fetched metadata and the checks run
    before the content is submitted. */
module Editor {
  import opened Options
  import opened JsStrings
  import opened Sequences
  import opened Content
  import Markup

  // ---------------------------------------------------------------------------
  // Formatting buttons

  datatype Format = BoldFormat | UnderlineFormat | BulletFormat

  /** The marker written before the selection. */
  function Prefix(f: Format): string {
    match f
    case BoldFormat => "**"
    case UnderlineFormat => "__"
    case BulletFormat => Markup.Bullet
  }

  /** The marker written after the selection. */
  function Suffix(f: Format): string {
    match f
    case BoldFormat => "**"
    case UnderlineFormat => "__"
    case BulletFormat => ""
  }

  /** The description after a formatting button, and the selection the
      editor restores afterwards. */
  datatype Edit = Edit(text: string, selStart: nat, selEnd: nat)

  /** `sel` is a whole bold or underline run: the prefix and the suffix are
      both there and do not overlap. */
  predicate IsWrapped(sel: string, f: Format) {
    && f != BulletFormat
    && |sel| >= |Prefix(f)| + |Suffix(f)|
    && StartsWith(sel, Prefix(f))
    && EndsWith(sel, Suffix(f))
  }

  /** One line of a bullet selection: a leading "• " is removed, otherwise
      one is added. */
  function ToggleBullet(line: string): string {
    if StartsWith(line, Markup.Bullet) then line[2..] else Markup.Bullet + line
  }

  function ToggleBullets(lines: seq<string>): (out: seq<string>)
    ensures |out| == |lines|
    ensures forall i :: 0 <= i < |lines| ==> out[i] == ToggleBullet(lines[i])
  {
    seq(|lines|, i requires 0 <= i < |lines| => ToggleBullet(lines[i]))
  }

  /** What replaces the selection: for the bullet button every selected line
      is toggled; for bold and underline a run is unwrapped and anything else
      is wrapped. */
  function Reformat(sel: string, f: Format): string {
    if f == BulletFormat then Join(ToggleBullets(Split(sel, '\n')), "\n")
    else if IsWrapped(sel, f) then sel[2..|sel| - 2]
    else Prefix(f) + sel + Suffix(f)
  }

  /** The description with `[start, stop)` replaced by `out`, and the
      selection moved to cover `out`. */
  function Splice(desc: string, start: nat, stop: nat, out: string): (e: Edit)
    requires start <= stop <= |desc|
    ensures e.selStart == start && e.selEnd == start + |out| <= |e.text|
    ensures |e.text| == |desc| - (stop - start) + |out|
    ensures e.text[..start] == desc[..start]
    ensures e.text[start..e.selEnd] == out
    ensures e.text[e.selEnd..] == desc[stop..]
  {
    var text := desc[..start] + out + desc[stop..];
    assert text[..start] == desc[..start];
    assert text[start..start + |out|] == out;
    assert text[start + |out|..] == desc[stop..];
    Edit(text, start, start + |out|)
  }

  /** `applyFormatting` on the selection `[start, stop)` of the description,
      with the run test corrected: a bold or underline selection is unwrapped
      only when its prefix and suffix do not overlap (`IsWrapped`), so a
      selection of two or three marker characters is wrapped rather than
      deleted as the code as written does (`ApplyFormattingAsWritten`).
      An empty selection leaves everything as it is (`None`); otherwise only
      the selection is replaced, and the new selection covers exactly the
      replacement. */
  function ApplyFormatting(desc: string, start: nat, stop: nat, fmt: Format): (r: Option<Edit>)
    requires start <= stop <= |desc|
    ensures r.None? <==> start == stop
    ensures r.Some? ==> && r.value.selStart == start
                        && start <= r.value.selEnd <= |r.value.text|
                        && r.value.text[..start] == desc[..start]
                        && r.value.text[start..r.value.selEnd] == Reformat(desc[start..stop], fmt)
                        && r.value.text[r.value.selEnd..] == desc[stop..]
  {
    if start == stop then None else Some(Splice(desc, start, stop, Reformat(desc[start..stop], fmt)))
  }

  /** The new description is the text before the selection, the
      replacement and the text after it. */
  lemma ApplyText(desc: string, start: nat, end: nat, f: Format)
    requires start < end <= |desc|
    ensures ApplyFormatting(desc, start, end, f).value.text
         == desc[..start] + Reformat(desc[start..end], f) + desc[end..]
  {
  }

  /** A text is its prefix, its selection and its suffix. */
  lemma Recompose(desc: string, start: nat, end: nat)
    requires start <= end <= |desc|
    ensures desc[..start] + desc[start..end] + desc[end..] == desc
  {
  }

  /** Applying the same button to the returned selection undoes an edit
      whose replacement `out` is non-empty and turns back into `sel`. */
  lemma UndoBySecondEdit(desc: string, start: nat, end: nat, f: Format)
    requires start < end <= |desc|
    requires Reformat(desc[start..end], f) != []
    requires Reformat(Reformat(desc[start..end], f), f) == desc[start..end]
    ensures var e := ApplyFormatting(desc, start, end, f).value;
            ApplyFormatting(e.text, e.selStart, e.selEnd, f) == Some(Edit(desc, start, end))
  {
    var e := ApplyFormatting(desc, start, end, f).value;
    var e2 := ApplyFormatting(e.text, e.selStart, e.selEnd, f).value;
    Recompose(e2.text, start, e2.selEnd);
    Recompose(desc, start, end);
  }

  /** Wrapping a selection that is not a run gives a run whose inside is
      the selection. */
  lemma WrapReformat(sel: string, f: Format)
    requires f != BulletFormat && !IsWrapped(sel, f)
    ensures Reformat(sel, f) == Prefix(f) + sel + Suffix(f)
    ensures Reformat(Reformat(sel, f), f) == sel
  {
    var out := Prefix(f) + sel + Suffix(f);
    assert out[..2] == Prefix(f);
    assert out[|out| - 2..] == Suffix(f);
    assert out[2..|out| - 2] == sel;
  }

  /** Unwrapping a run leaves its inside, and wrapping that inside again
      gives the run back unless the inside is empty or itself a run. */
  lemma UnwrapReformat(sel: string, f: Format)
    requires IsWrapped(sel, f)
    ensures |sel| >= 4 && Reformat(sel, f) == sel[2..|sel| - 2]
    ensures var inner := sel[2..|sel| - 2];
            inner != [] && !IsWrapped(inner, f) ==> Reformat(inner, f) == sel
  {
    var inner := sel[2..|sel| - 2];
    assert sel[..2] == Prefix(f);
    assert sel[|sel| - 2..] == Suffix(f);
    assert sel == sel[..2] + inner + sel[|sel| - 2..];
  }

  /** Bold or underline on a selection that is not already a run puts the
      markers around it. */
  lemma WrapInserts(desc: string, start: nat, end: nat, f: Format)
    requires start < end <= |desc| && f != BulletFormat
    requires !IsWrapped(desc[start..end], f)
    ensures ApplyFormatting(desc, start, end, f).value.text
         == desc[..start] + (Prefix(f) + desc[start..end] + Suffix(f)) + desc[end..]
  {
    WrapReformat(desc[start..end], f);
    ApplyText(desc, start, end, f);
  }

  /** Pressing bold or underline again after wrapping restores the text and
      the selection. */
  lemma WrapThenUnwrap(desc: string, start: nat, end: nat, f: Format)
    requires start < end <= |desc| && f != BulletFormat
    requires !IsWrapped(desc[start..end], f)
    ensures var e := ApplyFormatting(desc, start, end, f).value;
            ApplyFormatting(e.text, e.selStart, e.selEnd, f) == Some(Edit(desc, start, end))
  {
    WrapReformat(desc[start..end], f);
    UndoBySecondEdit(desc, start, end, f);
  }

  lemma SliceOfSlice(s: string, lo: nat, hi: nat, i: nat, j: nat)
    requires lo <= hi <= |s| && i <= j <= hi - lo
    ensures s[lo..hi][i..j] == s[lo + i..lo + j]
  {
    assert |s[lo..hi][i..j]| == j - i;
    forall k | 0 <= k < j - i ensures s[lo..hi][i..j][k] == s[lo + i + k] {
    }
  }

  lemma UnwrapInner(desc: string, start: nat, end: nat, f: Format)
    requires start < end <= |desc|
    requires IsWrapped(desc[start..end], f)
    ensures start + 4 <= end
    ensures Reformat(desc[start..end], f) == desc[start + 2..end - 2]
  {
    var sel := desc[start..end];
    UnwrapReformat(sel, f);
    SliceOfSlice(desc, start, end, 2, |sel| - 2);
  }

  /** Bold or underline on a whole run removes its markers. */
  lemma UnwrapRemoves(desc: string, start: nat, end: nat, f: Format)
    requires start < end <= |desc|
    requires IsWrapped(desc[start..end], f)
    ensures start + 4 <= end
    ensures ApplyFormatting(desc, start, end, f).value.text
         == desc[..start] + desc[start + 2..end - 2] + desc[end..]
  {
    UnwrapInner(desc, start, end, f);
    ApplyText(desc, start, end, f);
  }

  /** Pressing the button again after unwrapping restores the run, unless
      what was inside is empty or itself a run. */
  lemma UnwrapThenWrap(desc: string, start: nat, end: nat, f: Format)
    requires start < end <= |desc|
    requires IsWrapped(desc[start..end], f)
    requires start + 4 <= end
    requires desc[start + 2..end - 2] != [] && !IsWrapped(desc[start + 2..end - 2], f)
    ensures var e := ApplyFormatting(desc, start, end, f).value;
            ApplyFormatting(e.text, e.selStart, e.selEnd, f) == Some(Edit(desc, start, end))
  {
    UnwrapInner(desc, start, end, f);
    UnwrapReformat(desc[start..end], f);
    UndoBySecondEdit(desc, start, end, f);
  }

  /** Toggling a line twice gives it back unless it starts with two bullets. */
  lemma ToggleBulletTwice(line: string)
    requires !StartsWith(line, Markup.Bullet) || !StartsWith(line[2..], Markup.Bullet)
    ensures ToggleBullet(ToggleBullet(line)) == line
  {
    if StartsWith(line, Markup.Bullet) {
      assert line == Markup.Bullet + line[2..];
    } else {
      var t := Markup.Bullet + line;
      assert t[..2] == Markup.Bullet;
      assert t[2..] == line;
    }
  }

  lemma ToggleBulletNoNewline(line: string)
    requires '\n' !in line
    ensures '\n' !in ToggleBullet(line)
  {
    if !StartsWith(line, Markup.Bullet) {
      assert Markup.Bullet + line == ['\U{2022}', ' '] + line;
    }
  }

  /** The bullet button twice restores a selection none of whose lines
      starts with two bullets, as long as the first press leaves a non-empty
      selection. */
  lemma BulletTwice(desc: string, start: nat, end: nat)
    requires start < end <= |desc|
    requires forall line :: line in Split(desc[start..end], '\n') ==>
               !StartsWith(line, Markup.Bullet) || !StartsWith(line[2..], Markup.Bullet)
    requires Reformat(desc[start..end], BulletFormat) != []
    ensures var e := ApplyFormatting(desc, start, end, BulletFormat).value;
            ApplyFormatting(e.text, e.selStart, e.selEnd, BulletFormat) == Some(Edit(desc, start, end))
  {
    var sel := desc[start..end];
    var lines := Split(sel, '\n');
    var toggled := ToggleBullets(lines);
    forall i | 0 <= i < |toggled| ensures '\n' !in toggled[i] {
      ToggleBulletNoNewline(lines[i]);
    }
    SplitJoin(toggled, '\n');
    assert ToggleBullets(toggled) == lines by {
      forall i | 0 <= i < |lines| ensures ToggleBullet(toggled[i]) == lines[i] {
        assert lines[i] in lines;
        ToggleBulletTwice(lines[i]);
      }
    }
    JoinSplit(sel, '\n');
    UndoBySecondEdit(desc, start, end, BulletFormat);
  }

  // ---------------------------------------------------------------------------
  // The unwrap test as written

  /** `selectedText.slice(2, -2)`: empty when the end falls before the
      start. */
  function SliceInner(sel: string): string {
    if |sel| >= 4 then sel[2..|sel| - 2] else []
  }

  /** On a whole run the slice is the inside: putting the markers back
      around it gives the run, and it is what the corrected test unwraps. */
  lemma SliceInnerOfRun(sel: string, f: Format)
    requires IsWrapped(sel, f)
    ensures Prefix(f) + SliceInner(sel) + Suffix(f) == sel
    ensures SliceInner(sel) == Reformat(sel, f)
  {
  }

  /** The replacement as the dialog computes it: the unwrap test only checks
      `startsWith(prefix) && endsWith(suffix)`, so "**" and "***" count as
      runs. */
  function ReformatAsWritten(sel: string, f: Format): string {
    if f == BulletFormat then Join(ToggleBullets(Split(sel, '\n')), "\n")
    else if StartsWith(sel, Prefix(f)) && EndsWith(sel, Suffix(f)) then SliceInner(sel)
    else Prefix(f) + sel + Suffix(f)
  }

  function ApplyFormattingAsWritten(desc: string, start: nat, stop: nat, fmt: Format): (r: Option<Edit>)
    requires start <= stop <= |desc|
    ensures r.None? <==> start == stop
    ensures r.Some? ==> && r.value.selStart == start
                        && start <= r.value.selEnd <= |r.value.text|
                        && r.value.text[..start] == desc[..start]
                        && r.value.text[start..r.value.selEnd] == ReformatAsWritten(desc[start..stop], fmt)
                        && r.value.text[r.value.selEnd..] == desc[stop..]
  {
    if start == stop then None else Some(Splice(desc, start, stop, ReformatAsWritten(desc[start..stop], fmt)))
  }

  /** The code as written and the corrected test differ only on a selection
      of two or three marker characters. */
  lemma AsWrittenDiffersOnlyOnShortRuns(sel: string, f: Format)
    requires ReformatAsWritten(sel, f) != Reformat(sel, f)
    ensures f != BulletFormat && 2 <= |sel| <= 3
    ensures StartsWith(sel, Prefix(f)) && EndsWith(sel, Suffix(f))
    ensures ReformatAsWritten(sel, f) == []
  {
  }

  /** Bold on a selection of "***" deletes it, and so does bold on "**":
      the markers are taken as a run with nothing inside, and the text is
      lost. The corrected test wraps them instead. */
  lemma ShortRunLost()
    ensures ApplyFormattingAsWritten("***", 0, 3, BoldFormat) == Some(Edit("", 0, 0))
    ensures ApplyFormattingAsWritten("**", 0, 2, BoldFormat) == Some(Edit("", 0, 0))
    ensures ApplyFormatting("***", 0, 3, BoldFormat) == Some(Edit("*******", 0, 7))
  {
    assert !IsWrapped("***", BoldFormat);
    assert Reformat("***", BoldFormat) == "**" + "***" + "**" == "*******";
    assert "***"[..0] + "*******" + "***"[3..] == "*******";
    assert "***"[0..3] == "***";
    assert "**"[0..2] == "**";
    assert StartsWith("***", "**") && EndsWith("***", "**");
    assert StartsWith("**", "**") && EndsWith("**", "**");
  }

  // ---------------------------------------------------------------------------
  // Form state and tags

  datatype FormData = FormData(
    title: string,
    kind: ContentType,
    link: string,
    description: string,
    tags: seq<string>,
    currentTag: string)

  /** The dialog's initial state. */
  const EmptyForm := FormData("", YouTube, "", "", [], "")

  /** `addTag`: the trimmed tag input is appended, and the input cleared, when
      it is non-empty and not yet in the list; otherwise nothing changes. */
  function AddTag(form: FormData): (r: FormData)
    ensures r.tags != form.tags <==> Trim(form.currentTag) != [] && Trim(form.currentTag) !in form.tags
    ensures r.tags != form.tags ==> r == form.(tags := form.tags + [Trim(form.currentTag)], currentTag := "")
    ensures r.tags == form.tags ==> r == form
  {
    var tag := Trim(form.currentTag);
    if tag != [] && tag !in form.tags then
      assert |form.tags + [tag]| != |form.tags|;
      form.(tags := form.tags + [tag], currentTag := "")
    else form
  }

  /** Adding a tag never creates a duplicate. */
  lemma AddTagKeepsDistinct(form: FormData)
    requires NoDuplicates(form.tags)
    ensures NoDuplicates(AddTag(form).tags)
  {
    var r := AddTag(form);
    if r.tags != form.tags {
      forall i, j | 0 <= i < j < |r.tags| ensures r.tags[i] != r.tags[j] {
        if j == |form.tags| {
          assert r.tags[i] == form.tags[i];
        }
      }
    }
  }

  /** A second `addTag` finds the input empty and does nothing. */
  lemma AddTagTwice(form: FormData)
    ensures AddTag(AddTag(form)) == AddTag(form)
  {
    var r := AddTag(form);
    if r.tags != form.tags {
      assert AllWhitespace(r.currentTag);
    }
  }

  /** `removeTag`: every tag equal to `tag` goes, the others keep their
      order, and nothing else in the form changes. */
  function RemoveTag(form: FormData, tag: string): (r: FormData)
    ensures r == form.(tags := r.tags)
    ensures tag !in r.tags
    ensures IsSubsequence(r.tags, form.tags)
    ensures multiset(r.tags) == multiset(form.tags)[tag := 0]
  {
    form.(tags := RemoveAll(form.tags, tag))
  }

  lemma RemoveTagIdempotent(form: FormData, tag: string)
    ensures RemoveTag(RemoveTag(form, tag), tag) == RemoveTag(form, tag)
  {
  }

  lemma RemoveAbsentTag(form: FormData, tag: string)
    requires tag !in form.tags
    ensures RemoveTag(form, tag) == form
  {
  }

  lemma RemoveTagKeepsDistinct(form: FormData, tag: string)
    requires NoDuplicates(form.tags)
    ensures NoDuplicates(RemoveTag(form, tag).tags)
  {
    RemoveAllNoDuplicates(form.tags, tag);
  }

  lemma {:induction false} RemoveAllLast(xs: seq<string>, x: string)
    requires x !in xs
    ensures RemoveAll(xs + [x], x) == xs
  {
    if xs != [] {
      assert (xs + [x])[1..] == xs[1..] + [x];
      RemoveAllLast(xs[1..], x);
      assert xs == [xs[0]] + xs[1..];
    } else {
      assert RemoveAll([x], x) == RemoveAll([], x);
    }
  }

  /** Removing the tag just added gives back the earlier tag list. */
  lemma RemoveUndoesAdd(form: FormData)
    requires AddTag(form).tags != form.tags
    ensures RemoveTag(AddTag(form), Trim(form.currentTag)).tags == form.tags
  {
    RemoveAllLast(form.tags, Trim(form.currentTag));
  }

  // ---------------------------------------------------------------------------
  // Auto-fill

  /** What the metadata endpoint returns; an absent title or description is
      the empty string and absent tags the empty list. */
  datatype Metadata = Metadata(title: string, description: string, tags: seq<string>)

  /** The auto-fill merge: a non-empty fetched title or description replaces
      the current one, and the tags become the set of the current tags
      followed by the fetched ones. */
  function MergeMetadata(form: FormData, meta: Metadata): (r: FormData)
    ensures r == form.(title := r.title, description := r.description, tags := r.tags)
    ensures r.title == if meta.title == [] then form.title else meta.title
    ensures r.description == if meta.description == [] then form.description else meta.description
    ensures NoDuplicates(r.tags)
    ensures forall t :: t in r.tags <==> t in form.tags || t in meta.tags
  {
    SetAddAllDistinct([], form.tags + meta.tags);
    form.(title := if meta.title != [] then meta.title else form.title,
          description := if meta.description != [] then meta.description else form.description,
          tags := SetAddAll([], form.tags + meta.tags))
  }

  /** The merged tags are the first occurrences of the current tags followed
      by the fetched ones. */
  lemma MergeTagsFirstOccurrence(form: FormData, meta: Metadata)
    ensures MergeMetadata(form, meta).tags == KeepFirst(form.tags + meta.tags)
  {
    SetOfSequence(form.tags + meta.tags);
  }

  /** When the current tags are distinct they stay first and in order; only
      the new fetched tags are appended. */
  lemma MergeKeepsCurrentTags(form: FormData, meta: Metadata)
    requires NoDuplicates(form.tags)
    ensures MergeMetadata(form, meta).tags == form.tags + KeepFirst(Without(meta.tags, form.tags))
  {
    SetAddAllAppend([], form.tags, meta.tags);
    assert [] + form.tags == form.tags;
    SetOfDistinct([], form.tags);
    SetAddAllKeepsFirst(form.tags, meta.tags);
  }

  /** Merging the same metadata twice changes nothing further. */
  lemma MergeTwice(form: FormData, meta: Metadata)
    ensures MergeMetadata(MergeMetadata(form, meta), meta) == MergeMetadata(form, meta)
  {
    var once := MergeMetadata(form, meta);
    MergeKeepsCurrentTags(once, meta);
    assert Without(meta.tags, once.tags) == [] by {
      WithoutMembers(meta.tags, once.tags);
    }
  }

  /** Every element of `xs` being in `seen` leaves nothing. */
  lemma {:induction false} WithoutMembers(xs: seq<string>, seen: seq<string>)
    requires forall x :: x in xs ==> x in seen
    ensures Without(xs, seen) == []
  {
    if xs != [] {
      assert xs[0] in xs;
      WithoutMembers(xs[1..], seen);
    }
  }

  const UrlFirst := "Please enter a URL first"
  const FetchFailed := "Failed to fetch content details. Please fill them manually."

  /** The form and error after the auto-fill button. */
  datatype AutoFillResult = AutoFillResult(form: FormData, error: Option<string>)

  /** `autoFillContent`: with no link the button only reports an error; the
      response of the metadata request is a parameter (`None` when the
      request fails). */
  function AutoFill(form: FormData, response: Option<Metadata>): (r: AutoFillResult)
    ensures form.link == [] ==> r == AutoFillResult(form, Some(UrlFirst))
    ensures form.link != [] && response.None? ==> r == AutoFillResult(form, Some(FetchFailed))
    ensures form.link != [] && response.Some? ==>
              r == AutoFillResult(MergeMetadata(form, response.value), None)
  {
    if form.link == [] then AutoFillResult(form, Some(UrlFirst))
    else match response
      case None => AutoFillResult(form, Some(FetchFailed))
      case Some(meta) => AutoFillResult(MergeMetadata(form, meta), None)
  }

  // ---------------------------------------------------------------------------
  // Submit

  const TitleMissing := "Please enter a title"
  const LinkInvalid := "Please enter a valid link"

  /** `handleSubmit`'s checks: the title first, then the link, both after
      trimming. `None` lets the request go out. */
  function SubmitError(form: FormData): (err: Option<string>)
    ensures err == Some(TitleMissing) <==> AllWhitespace(form.title)
    ensures err == Some(LinkInvalid) <==> !AllWhitespace(form.title) && AllWhitespace(form.link)
    ensures err.None? <==> !AllWhitespace(form.title) && !AllWhitespace(form.link)
  {
    if Trim(form.title) == [] then Some(TitleMissing)
    else if Trim(form.link) == [] then Some(LinkInvalid)
    else None
  }

  /** A link of blanks gets past the auto-fill check, which does not trim,
      but not past the submit check, which does. */
  lemma BlankLinkAutoFillsButDoesNotSubmit(form: FormData, meta: Metadata)
    requires form.link == " " && !AllWhitespace(form.title)
    ensures AutoFill(form, Some(meta)).error.None?
    ensures SubmitError(form) == Some(LinkInvalid)
  {
    assert IsWhitespace(form.link[0]);
  }

  /** A freshly opened dialog has neither a link nor a title, so auto-fill
      only asks for a URL and submitting asks for a title. */
  lemma FreshFormBlocked(response: Option<Metadata>)
    ensures AutoFill(EmptyForm, response) == AutoFillResult(EmptyForm, Some(UrlFirst))
    ensures SubmitError(EmptyForm) == Some(TitleMissing)
  {
  }

  /** Auto-filling again with the same response changes nothing more, and
      clears the error. */
  lemma AutoFillTwice(form: FormData, meta: Metadata)
    requires form.link != []
    ensures var once := AutoFill(form, Some(meta)).form;
            AutoFill(once, Some(meta)) == AutoFillResult(once, None)
  {
    MergeTwice(form, meta);
  }
}
