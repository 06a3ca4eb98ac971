/** The lesson-contents panel page: a list of (section id, markdown content)
    entries updated by id, a lookup that defaults to the empty string, and the
    modal editor that loads, edits and saves one section's content. */
module SectionContents {
  import opened Wrappers
  import opened Sequences

  datatype Entry = Entry(id: string, content: string)

  /** The page's state. `selected` is the section open in the modal; `buffer` is the
      text area's content. */
  datatype Editor = Editor(
    lesson: Option<string>,
    selected: Option<string>,
    modalOpen: bool,
    buffer: string,
    contents: seq<Entry>,
    preview: bool)

  /** The page as it mounts: nothing selected, no content saved. */
  const Initial: Editor := Editor(None, None, false, "", [], false)

  predicate HasEntry(contents: seq<Entry>, id: string) {
    exists i :: 0 <= i < |contents| && contents[i].id == id
  }

  function DifferentEntryIds(a: Entry, b: Entry): bool {
    a.id != b.id
  }

  /** No two entries share a section id. */
  predicate UniqueEntryIds(contents: seq<Entry>) {
    Pairwise(DifferentEntryIds, contents)
  }

  /** `getSectionContent`: the content of the first entry with `id`, or '' if there is none. */
  function Lookup(contents: seq<Entry>, id: string): (r: string)
    ensures !HasEntry(contents, id) ==> r == ""
    ensures forall i :: (0 <= i < |contents| && contents[i].id == id &&
      (forall j :: 0 <= j < i ==> contents[j].id != id)) ==> r == contents[i].content
    decreases |contents|
  {
    if contents == [] then ""
    else if contents[0].id == id then contents[0].content
    else Lookup(contents[1..], id)
  }

  /** Set the content of every entry with `id` (`prev.map(...)`). */
  function Replace(contents: seq<Entry>, id: string, content: string): (r: seq<Entry>)
    ensures |r| == |contents|
    ensures forall i :: 0 <= i < |r| ==> r[i].id == contents[i].id
    ensures forall i :: 0 <= i < |r| && contents[i].id != id ==> r[i] == contents[i]
    ensures forall i :: 0 <= i < |r| && contents[i].id == id ==> r[i].content == content
  {
    seq(|contents|, i requires 0 <= i < |contents| =>
      if contents[i].id == id then contents[i].(content := content) else contents[i])
  }

  /** The update inside `handleSaveContent`: replace the entry for `id` in place,
      or append a new one at the end. */
  function Upsert(contents: seq<Entry>, id: string, content: string): (r: seq<Entry>)
    ensures HasEntry(contents, id) ==> |r| == |contents|
    ensures HasEntry(contents, id) ==> forall i :: 0 <= i < |r| ==>
      r[i].id == contents[i].id && (contents[i].id != id ==> r[i] == contents[i]) &&
      (contents[i].id == id ==> r[i].content == content)
    ensures !HasEntry(contents, id) ==> r == contents + [Entry(id, content)]
  {
    if HasEntry(contents, id) then Replace(contents, id, content)
    else contents + [Entry(id, content)]
  }

  lemma {:induction false} LookupReplace(contents: seq<Entry>, id: string, content: string, x: string)
    ensures Lookup(Replace(contents, id, content), x) ==
      if x == id && HasEntry(contents, id) then content else Lookup(contents, x)
    decreases |contents|
  {
    if contents != [] {
      var r := Replace(contents, id, content);
      assert r[1..] == Replace(contents[1..], id, content);
      LookupReplace(contents[1..], id, content, x);
      if contents[0].id != id && HasEntry(contents, id) {
        var i :| 0 <= i < |contents| && contents[i].id == id;
        assert contents[1..][i - 1].id == id;
      }
    }
  }

  lemma {:induction false} LookupAppend(contents: seq<Entry>, e: Entry, x: string)
    ensures Lookup(contents + [e], x) ==
      if x == e.id && !HasEntry(contents, x) then e.content else Lookup(contents, x)
    decreases |contents|
  {
    if contents == [] {
      assert [] + [e] == [e];
      assert [e][1..] == [];
    } else {
      assert (contents + [e])[1..] == contents[1..] + [e];
      LookupAppend(contents[1..], e, x);
      if contents[0].id != x && HasEntry(contents, x) {
        var i :| 0 <= i < |contents| && contents[i].id == x;
        assert contents[1..][i - 1].id == x;
      }
    }
  }

  /** After an upsert, looking up that id gives the new content and every other
      id gives what it gave before. */
  lemma {:induction false} LookupUpsert(contents: seq<Entry>, id: string, content: string, x: string)
    ensures Lookup(Upsert(contents, id, content), x) == if x == id then content else Lookup(contents, x)
  {
    if HasEntry(contents, id) {
      LookupReplace(contents, id, content, x);
    } else {
      LookupAppend(contents, Entry(id, content), x);
    }
  }

  /** Upserting keeps the section ids distinct. */
  lemma UpsertKeepsUnique(contents: seq<Entry>, id: string, content: string)
    requires UniqueEntryIds(contents)
    ensures UniqueEntryIds(Upsert(contents, id, content))
  {
  }

  // ---------------------------------------------------------------------------
  // The modal

  /** Whether a section is selected in the sense of `if (!selectedSection)`: the
      empty id counts as none. */
  predicate HasSelection(ed: Editor) {
    ed.selected.Some? && ed.selected.value != ""
  }

  /** Whether the content editor modal is on screen (`isModalOpen && selectedSection`). */
  predicate ModalVisible(ed: Editor) {
    ed.modalOpen && HasSelection(ed)
  }

  /** `handleSectionClick`: load the section's stored content (or '') into the
      text area, select the section and open the modal. */
  function HandleSectionClick(ed: Editor, sid: string): (r: Editor)
    ensures r.buffer == Lookup(ed.contents, sid)
    ensures r.selected == Some(sid) && r.modalOpen
    ensures r.contents == ed.contents && r.lesson == ed.lesson && r.preview == ed.preview
  {
    ed.(buffer := Lookup(ed.contents, sid), selected := Some(sid), modalOpen := true)
  }

  /** A click on a section card: ignored in preview mode, otherwise `handleSectionClick`. */
  function CardClick(ed: Editor, sid: string): (r: Editor)
    ensures ed.preview ==> r == ed
    ensures !ed.preview ==> r == HandleSectionClick(ed, sid)
  {
    if ed.preview then ed else HandleSectionClick(ed, sid)
  }

  /** Typing in the text area. */
  function EditBuffer(ed: Editor, text: string): (r: Editor)
    ensures r.buffer == text && r.(buffer := ed.buffer) == ed
  {
    ed.(buffer := text)
  }

  /** The close and cancel buttons: hide the modal, keeping selection and text. */
  function CloseModal(ed: Editor): (r: Editor)
    ensures !r.modalOpen && !ModalVisible(r)
    ensures r.(modalOpen := ed.modalOpen) == ed
  {
    ed.(modalOpen := false)
  }

  /** The preview/edit toggle. */
  function TogglePreview(ed: Editor): (r: Editor)
    ensures r.preview != ed.preview && r.(preview := ed.preview) == ed
  {
    ed.(preview := !ed.preview)
  }

  /** Choosing a lesson card (`Some`) or going back to the list (`None`). */
  function SelectLesson(ed: Editor, lesson: Option<string>): (r: Editor)
    ensures r.lesson == lesson && r.(lesson := ed.lesson) == ed
  {
    ed.(lesson := lesson)
  }

  /** `handleSaveContent`: with no section selected nothing happens; otherwise the
      text area's content is stored for the selected section, the modal closes and
      the selection and text area are cleared. */
  function Save(ed: Editor): (r: Editor)
    ensures !HasSelection(ed) ==> r == ed
    ensures HasSelection(ed) ==> !r.modalOpen && r.selected.None? && r.buffer == ""
    ensures HasSelection(ed) ==> r.contents == Upsert(ed.contents, ed.selected.value, ed.buffer)
    ensures HasSelection(ed) ==> r.lesson == ed.lesson && r.preview == ed.preview
  {
    if !HasSelection(ed) then ed
    else
      ed.(contents := Upsert(ed.contents, ed.selected.value, ed.buffer),
          modalOpen := false, selected := None, buffer := "")
  }

  /** After a save, the saved section's content is what the text area held, and
      every other section's content is unchanged. */
  lemma {:induction false} SaveStoresBuffer(ed: Editor, x: string)
    requires HasSelection(ed)
    ensures Lookup(Save(ed).contents, ed.selected.value) == ed.buffer
    ensures x != ed.selected.value ==> Lookup(Save(ed).contents, x) == Lookup(ed.contents, x)
  {
    LookupUpsert(ed.contents, ed.selected.value, ed.buffer, ed.selected.value);
    LookupUpsert(ed.contents, ed.selected.value, ed.buffer, x);
  }

  /** Opening a section and saving it without typing leaves every section's content as it was. */
  lemma {:induction false} ClickThenSaveChangesNothing(ed: Editor, sid: string, x: string)
    requires !ed.preview
    ensures Lookup(Save(CardClick(ed, sid)).contents, x) == Lookup(ed.contents, x)
  {
    if sid != "" {
      LookupUpsert(ed.contents, sid, Lookup(ed.contents, sid), x);
    }
  }

  // ---------------------------------------------------------------------------
  // Sessions

  datatype Event =
    | OpenLesson(lesson: Option<string>)
    | ClickCard(sid: string)
    | Type(text: string)
    | Close
    | Toggle
    | SaveContent

  function Step(ed: Editor, ev: Event): Editor {
    match ev
    case OpenLesson(l) => SelectLesson(ed, l)
    case ClickCard(sid) => CardClick(ed, sid)
    case Type(t) => EditBuffer(ed, t)
    case Close => CloseModal(ed)
    case Toggle => TogglePreview(ed)
    case SaveContent => Save(ed)
  }

  function Run(ed: Editor, events: seq<Event>): Editor
    decreases |events|
  {
    if events == [] then ed else Run(Step(ed, events[0]), events[1..])
  }

  /** Whatever the user does, no two stored entries share a section id. */
  lemma {:induction false} RunKeepsUniqueIds(ed: Editor, events: seq<Event>)
    requires UniqueEntryIds(ed.contents)
    ensures UniqueEntryIds(Run(ed, events).contents)
    decreases |events|
  {
    if events != [] {
      var next := Step(ed, events[0]);
      if events[0].SaveContent? && HasSelection(ed) {
        UpsertKeepsUnique(ed.contents, ed.selected.value, ed.buffer);
      }
      assert UniqueEntryIds(next.contents);
      RunKeepsUniqueIds(next, events[1..]);
    }
  }
}
