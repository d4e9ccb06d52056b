/**
 * The co-pilot pane's opening message: a template chosen by the student's
 * tags, followed by a quotation of the instructor's notes when there are any.
 */
module Copilot {
  import opened Text
  import opened CrmTypes

  /** How much of the notes the greeting quotes */
  const NotesQuoteLength := 50

  /** The notes as quoted: the first fifty characters, and "..." when something was cut */
  function QuotedNotes(notes: string): (q: string)
    ensures |notes| <= NotesQuoteLength ==> q == notes
    ensures |notes| > NotesQuoteLength ==>
              |q| == NotesQuoteLength + 3 && q[..NotesQuoteLength] == notes[..NotesQuoteLength]
              && q[NotesQuoteLength..] == "..."
  {
    var n := if |notes| < NotesQuoteLength then |notes| else NotesQuoteLength;
    notes[..n] + (if |notes| > NotesQuoteLength then "..." else "")
  }

  const NotesContextHead := " Based on your notes, I'll keep in mind: \""

  /** `notesContext`: nothing for blank notes, otherwise a sentence quoting them */
  function NotesContext(notes: string): (r: string)
    ensures r == "" <==> Trim(notes) == ""
    ensures Trim(notes) != "" ==>
              |r| == |NotesContextHead| + |QuotedNotes(notes)| + 1
              && StartsWith(r, NotesContextHead) && EndsWith(r, "\"")
              && r[|NotesContextHead|..|r| - 1] == QuotedNotes(notes)
  {
    if Trim(notes) != "" then NotesContextHead + QuotedNotes(notes) + "\"" else ""
  }

  /** The four kinds of greeting */
  datatype Topic = PerformanceAnxiety | ParentInquiry | ExamPrep | General

  /** The tag tests in their order: the first tag of the list found decides */
  function TopicOf(tags: seq<string>): (t: Topic)
    ensures t == PerformanceAnxiety <==> "Performance Anxiety" in tags
    ensures t == ParentInquiry <==> "Performance Anxiety" !in tags && "Parent" in tags
    ensures t == ExamPrep <==> "Performance Anxiety" !in tags && "Parent" !in tags && "Exam Prep" in tags
    ensures t == General <==> "Performance Anxiety" !in tags && "Parent" !in tags && "Exam Prep" !in tags
  {
    if "Performance Anxiety" in tags then PerformanceAnxiety
    else if "Parent" in tags then ParentInquiry
    else if "Exam Prep" in tags then ExamPrep
    else General
  }

  /** The text before and after the student's name in each template */
  function Before(t: Topic): string {
    match t
    case PerformanceAnxiety => "I've analyzed "
    case ParentInquiry => ""
    case ExamPrep => ""
    case General => "I've reviewed "
  }

  function After(t: Topic): string {
    match t
    case PerformanceAnxiety =>
      "'s history. They seem anxious about their recital. Shall I draft a reassuring reply?"
    case ParentInquiry =>
      " is inquiring about lessons for their children. I can help you draft a response about your teaching approach for young students."
    case ExamPrep =>
      " is preparing for their Trinity exam. I can help you create a study plan or draft encouraging messages about exam preparation."
    case General =>
      "'s conversation history. How can I help you craft the perfect response?"
  }

  /** The template of a topic around the student's name */
  function Opening(t: Topic, name: string): string {
    Before(t) + name + After(t)
  }

  /** `getGeminiGreeting` */
  function Greeting(student: Student, notes: string): (g: string)
    ensures Contains(g, student.name)
    ensures EndsWith(g, NotesContext(notes))
    ensures StartsWith(g, Opening(TopicOf(student.tags), student.name))
  {
    var t := TopicOf(student.tags);
    var o := Opening(t, student.name);
    ContainsMiddle(Before(t), student.name, After(t));
    ConcatParts(o, NotesContext(notes), student.name);
    o + NotesContext(notes)
  }

  /** Without notes there is no context */
  lemma NoNotesNoContext()
    ensures NotesContext("") == ""
  {
    TrimEmpty();
  }

  /** The notes only ever add a suffix: the greeting without notes, followed by the context */
  lemma GreetingAppendsContext(student: Student, notes: string)
    ensures Greeting(student, notes) == Greeting(student, "") + NotesContext(notes)
  {
    var o := Opening(TopicOf(student.tags), student.name);
    NoNotesNoContext();
    assert Greeting(student, "") == o + [] == o;
  }

  /** Blank notes, whitespace only, leave the greeting as without notes */
  lemma BlankNotesIgnored(student: Student, notes: string)
    requires forall k :: 0 <= k < |notes| ==> IsSpace(notes[k])
    ensures Greeting(student, notes) == Greeting(student, "")
  {
    BlankTrims(notes);
    GreetingAppendsContext(student, notes);
  }

  /** A string of spaces trims to nothing */
  lemma {:induction false} BlankTrims(s: string)
    requires forall k :: 0 <= k < |s| ==> IsSpace(s[k])
    ensures Trim(s) == ""
  {
    if s != [] {
      BlankTrims(s[1..]);
      TrimConsSpace(s[0], s[1..]);
    }
  }
}
