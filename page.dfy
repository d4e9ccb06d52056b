/**
 * The dashboard page's state transitions: dragging the two pane dividers,
 * searching students by name, and the handlers that mark a conversation read,
 * append a sent message and prepend a newly added student. `Date.now()` and
 * `new Date()` are the parameter `now`, in milliseconds.
 */
module Page {
  import opened Wrappers
  import opened Text
  import opened Seqs
  import opened CrmTypes
  import Dashboard
  import AddStudent

  // ---------------------------------------------------------------------
  // Pane widths
  // ---------------------------------------------------------------------

  datatype Divider = SidebarDivider | CopilotDivider

  /** `isDraggingRef`: the divider being dragged, if any */
  class DragRef {
    var current: Option<Divider>

    constructor ()
      ensures current == None
    {
      current := None;
    }

    /** `handleMouseDown` */
    method MouseDown(divider: Divider)
      modifies this
      ensures current == Some(divider)
    {
      current := Some(divider);
    }

    /** `handleMouseUp`, also bound to leaving the page */
    method MouseUp()
      modifies this
      ensures current == None
    {
      current := None;
    }
  }

  datatype Widths = Widths(sidebar: int, copilot: int)

  const InitialWidths := Widths(280, 340)

  /** The horizontal edges of the container's bounding box, in whole pixels */
  datatype Rect = Rect(left: int, right: int)

  /** `Math.max(lo, Math.min(hi, x))` */
  function Clamp(lo: int, hi: int, x: int): (r: int)
    ensures r >= lo
    ensures lo <= hi ==> r <= hi
    ensures lo <= x <= hi ==> r == x
    ensures x < lo ==> r == lo
    ensures lo <= hi < x ==> r == hi
  {
    if hi < x then (if lo < hi then hi else lo) else (if lo < x then x else lo)
  }

  predicate WidthsInRange(w: Widths) {
    200 <= w.sidebar <= 400 && 280 <= w.copilot <= 500
  }

  /** `handleMouseMove`: the dragged divider's pane follows the mouse within its bounds; the
      other pane keeps its width */
  function MouseMove(drag: DragRef, container: Option<Rect>, clientX: int, w: Widths): (r: Widths)
    reads drag
    ensures drag.current.None? || container.None? ==> r == w
    ensures drag.current == Some(SidebarDivider) && container.Some? ==>
              r.copilot == w.copilot && 200 <= r.sidebar <= 400
              && (200 <= clientX - container.value.left <= 400 ==> r.sidebar == clientX - container.value.left)
    ensures drag.current == Some(CopilotDivider) && container.Some? ==>
              r.sidebar == w.sidebar && 280 <= r.copilot <= 500
              && (280 <= container.value.right - clientX <= 500 ==> r.copilot == container.value.right - clientX)
  {
    match (drag.current, container)
    case (Some(SidebarDivider), Some(rect)) => w.(sidebar := Clamp(200, 400, clientX - rect.left))
    case (Some(CopilotDivider), Some(rect)) => w.(copilot := Clamp(280, 500, rect.right - clientX))
    case _ => w
  }

  /** Widths start in range and no sequence of mouse moves takes them out of it */
  lemma MouseMoveKeepsRange(drag: DragRef, container: Option<Rect>, clientX: int, w: Widths)
    requires WidthsInRange(w)
    ensures WidthsInRange(InitialWidths)
    ensures WidthsInRange(MouseMove(drag, container, clientX, w))
  {
  }

  /** A drag session: press on a divider, move, release; a move after the release changes
      nothing */
  method DragSession(divider: Divider, container: Option<Rect>, x1: int, x2: int, w: Widths)
    returns (during: Widths, after: Widths)
    requires WidthsInRange(w)
    ensures WidthsInRange(during) && after == during
    ensures divider == SidebarDivider ==> during.copilot == w.copilot
    ensures divider == CopilotDivider ==> during.sidebar == w.sidebar
  {
    var drag := new DragRef();
    drag.MouseDown(divider);
    during := MouseMove(drag, container, x1, w);
    drag.MouseUp();
    after := MouseMove(drag, container, x2, during);
  }

  // ---------------------------------------------------------------------
  // Search
  // ---------------------------------------------------------------------

  /** The search test: the lowercased name contains the lowercased query */
  predicate NameMatches(s: Student, query: string) {
    Contains(Lower(s.name), Lower(query))
  }

  /** `filteredStudents`: exactly the students whose name matches, in list order */
  function FilteredStudents(students: seq<Student>, query: string): (r: seq<Student>)
    ensures IsSubsequence(r, students)
    ensures forall k :: 0 <= k < |r| ==> NameMatches(r[k], query)
    ensures forall x :: multiset(r)[x] == if NameMatches(x, query) then multiset(students)[x] else 0
  {
    var p := (s: Student) => NameMatches(s, query);
    FilterIsSubsequence(students, p);
    forall x
      ensures multiset(Filter(students, p))[x] == if NameMatches(x, query) then multiset(students)[x] else 0
    {
      FilterMultiset(students, p, x);
    }
    Filter(students, p)
  }

  /** An empty search box lists every student */
  lemma EmptyQueryKeepsAll(students: seq<Student>)
    ensures FilteredStudents(students, "") == students
  {
    forall k | 0 <= k < |students|
      ensures NameMatches(students[k], "")
    {
      ContainsEmpty(Lower(students[k].name));
    }
    FilterAll(students, (s: Student) => NameMatches(s, ""));
  }

  /** Lowercasing twice is lowercasing once */
  lemma LowerIdempotent(s: string)
    ensures Lower(Lower(s)) == Lower(s)
  {
  }

  /** The search ignores the case of the query */
  lemma SearchIgnoresCase(students: seq<Student>, query: string)
    ensures FilteredStudents(students, Lower(query)) == FilteredStudents(students, query)
  {
    LowerIdempotent(query);
    FilterExt(students, (s: Student) => NameMatches(s, Lower(query)), (s: Student) => NameMatches(s, query));
  }

  // ---------------------------------------------------------------------
  // Handlers
  // ---------------------------------------------------------------------

  /** The page's student list and the conversation on screen */
  datatype CrmState = CrmState(students: seq<Student>, selected: Student)

  /** `handleSelectStudent`: the student goes on screen and every entry with its id is
      marked "read"; the others are untouched */
  function SelectStudent(st: CrmState, student: Student): (r: CrmState)
    ensures r.selected == student && |r.students| == |st.students|
    ensures forall k :: 0 <= k < |st.students| && st.students[k].id == student.id ==>
              r.students[k] == st.students[k].(status := "read")
    ensures forall k :: 0 <= k < |st.students| && st.students[k].id != student.id ==>
              r.students[k] == st.students[k]
  {
    CrmState(seq(|st.students|, k requires 0 <= k < |st.students| =>
      if st.students[k].id == student.id then st.students[k].(status := "read") else st.students[k]), student)
  }

  /** Selecting the same student again changes nothing more */
  lemma SelectIdempotent(st: CrmState, student: Student)
    ensures SelectStudent(SelectStudent(st, student), student) == SelectStudent(st, student)
  {
  }

  /** Marking read replaces any status, "Inactive" included, so a selected student whose
      conversation ends with their own message is listed as waiting for a reply */
  lemma SelectedAwaitsReplyIffStudentSpokeLast(st: CrmState, student: Student, k: nat)
    requires k < |st.students| && st.students[k].id == student.id
    ensures Dashboard.NeedsReply(SelectStudent(st, student).students[k])
            <==> |st.students[k].messages| > 0
                 && st.students[k].messages[|st.students[k].messages| - 1].sender == SentByStudent
  {
  }

  /** `msg-${Date.now()}` */
  function MessageId(now: int): string {
    "msg-" + IntToString(now)
  }

  /** `handleSendMessage`: one instructor message is appended to the conversation on screen
      and to every list entry with its id, whose last-message date becomes `now` */
  function SendMessage(st: CrmState, content: string, now: int): (r: CrmState)
    ensures |r.students| == |st.students|
    ensures forall k :: 0 <= k < |st.students| && st.students[k].id == st.selected.id ==>
              r.students[k] == st.students[k].(messages := st.students[k].messages + [Message(MessageId(now), content, SentByInstructor, now)],
                                               lastMessageDate := now)
    ensures forall k :: 0 <= k < |st.students| && st.students[k].id != st.selected.id ==>
              r.students[k] == st.students[k]
    ensures r.selected == st.selected.(messages := st.selected.messages + [Message(MessageId(now), content, SentByInstructor, now)],
                                       lastMessageDate := now)
  {
    var m := Message(MessageId(now), content, SentByInstructor, now);
    var students := seq(|st.students|, k requires 0 <= k < |st.students| =>
      if st.students[k].id == st.selected.id
      then st.students[k].(messages := st.students[k].messages + [m], lastMessageDate := now)
      else st.students[k]);
    CrmState(students, st.selected.(messages := st.selected.messages + [m], lastMessageDate := now))
  }

  /** After a send, the conversation grows by exactly one message, the instructor's, and no
      longer waits for a reply */
  lemma SendAnswersConversation(st: CrmState, content: string, now: int, k: nat)
    requires k < |st.students| && st.students[k].id == st.selected.id
    ensures |SendMessage(st, content, now).students[k].messages| == |st.students[k].messages| + 1
    ensures SendMessage(st, content, now).students[k].messages[..|st.students[k].messages|] == st.students[k].messages
    ensures !Dashboard.NeedsReply(SendMessage(st, content, now).students[k])
    ensures !Dashboard.NeedsReply(SendMessage(st, content, now).selected)
  {
  }

  /** The record `handleAddStudent` builds: status "unread", and the notes tag, if any, as the
      student's first message */
  function NewRecord(ns: AddStudent.NewStudent, now: int): (s: Student)
    ensures s.name == ns.name && s.email == ns.email && s.country == ns.country
            && s.countryFlag == ns.countryFlag && s.tags == ns.tags
    ensures s.status == "unread" && s.lastMessageDate == now && s.instructorNotes == ""
    ensures |ns.tags| > 0 ==> s.messages == [Message(MessageId(now), ns.tags[0], SentByStudent, now)]
    ensures |ns.tags| == 0 ==> s.messages == []
  {
    var messages := if |ns.tags| > 0 then [Message(MessageId(now), ns.tags[0], SentByStudent, now)] else [];
    Student("student-" + IntToString(now), ns.name, ns.email, ns.country, ns.countryFlag, "unread",
            ns.tags, messages, now, "")
  }

  /** `handleAddStudent`: the new record goes in front of the list */
  function AddNewStudent(st: CrmState, ns: AddStudent.NewStudent, now: int): (r: CrmState)
    ensures |r.students| == |st.students| + 1
    ensures r.students[0] == NewRecord(ns, now) && r.students[1..] == st.students
    ensures r.selected == st.selected
  {
    CrmState([NewRecord(ns, now)] + st.students, st.selected)
  }

  /** A student added with notes shows up as waiting for a reply, one added without does not */
  lemma AddedAwaitsReplyIffNotes(st: CrmState, ns: AddStudent.NewStudent, now: int)
    ensures Dashboard.NeedsReply(AddNewStudent(st, ns, now).students[0]) <==> |ns.tags| > 0
  {
  }

  /** A student submitted through the add form starts a conversation exactly when notes were
      typed, with the notes as its first message */
  lemma SubmittedNotesBecomeFirstMessage(st: CrmState, f: AddStudent.AddForm, now: int)
    requires AddStudent.HandleSubmit(f).added.Some?
    ensures f.notes != "" ==>
              AddNewStudent(st, AddStudent.HandleSubmit(f).added.value, now).students[0].messages
              == [Message(MessageId(now), f.notes, SentByStudent, now)]
    ensures f.notes == "" ==> AddNewStudent(st, AddStudent.HandleSubmit(f).added.value, now).students[0].messages == []
  {
  }
}
