/**
 * The dashboard's figures: the number of students, of leads and of active
 * students, the students waiting for a reply, and the first five leads.
 */
module Dashboard {
  import opened Seqs
  import opened CrmTypes

  predicate IsLead(s: Student) {
    s.status == "Lead"
  }

  predicate IsActive(s: Student) {
    s.status == "Active"
  }

  /** Not inactive, and the conversation ends with a message from the student */
  predicate NeedsReply(s: Student) {
    s.status != "Inactive" && |s.messages| > 0 && s.messages[|s.messages| - 1].sender == SentByStudent
  }

  datatype Stats = Stats(totalStudents: nat, leadsCount: nat, activeCount: nat)

  /** The three counters of the stats grid */
  function ComputeStats(students: seq<Student>): (r: Stats)
    ensures r.totalStudents == |students|
    ensures r.leadsCount + r.activeCount <= r.totalStudents
    ensures r.leadsCount == 0 <==> forall k :: 0 <= k < |students| ==> !IsLead(students[k])
    ensures r.activeCount == 0 <==> forall k :: 0 <= k < |students| ==> !IsActive(students[k])
    ensures r.leadsCount == |Filter(students, IsLead)| && r.activeCount == |Filter(students, IsActive)|
  {
    FilterDisjoint(students, IsLead, IsActive);
    FilterEmpty(students, IsLead);
    FilterEmpty(students, IsActive);
    Stats(|students|, |Filter(students, IsLead)|, |Filter(students, IsActive)|)
  }

  /** Everyone counts as a lead exactly when the lead counter equals the total */
  lemma {:induction false} AllLeads(students: seq<Student>)
    ensures ComputeStats(students).leadsCount == |students|
            <==> forall k :: 0 <= k < |students| ==> IsLead(students[k])
  {
    if forall k :: 0 <= k < |students| ==> IsLead(students[k]) {
      FilterAll(students, IsLead);
    } else {
      var k :| 0 <= k < |students| && !IsLead(students[k]);
      assert IsActive(students[k]) || !IsActive(students[k]);
      var notLead := (s: Student) => !IsLead(s);
      FilterDisjoint(students, IsLead, notLead);
      assert students[k] in Filter(students, notLead);
    }
  }

  /** `needsReply`: the students, in list order, who wait for an answer */
  function NeedsReplyList(students: seq<Student>): (r: seq<Student>)
    ensures IsSubsequence(r, students)
    ensures forall k :: 0 <= k < |r| ==> NeedsReply(r[k])
    ensures forall k :: 0 <= k < |students| && NeedsReply(students[k]) ==> students[k] in r
    ensures forall s :: multiset(r)[s] == if NeedsReply(s) then multiset(students)[s] else 0
  {
    FilterIsSubsequence(students, NeedsReply);
    forall s ensures multiset(Filter(students, NeedsReply))[s] == if NeedsReply(s) then multiset(students)[s] else 0 {
      FilterMultiset(students, NeedsReply, s);
    }
    Filter(students, NeedsReply)
  }

  /** A student whose last message is the instructor's never waits for a reply */
  lemma AnsweredNotListed(students: seq<Student>, s: Student)
    requires |s.messages| > 0 && s.messages[|s.messages| - 1].sender == SentByInstructor
    ensures s !in NeedsReplyList(students)
  {
  }

  /** `recentLeads`: the first five leads in list order */
  function RecentLeads(students: seq<Student>): (r: seq<Student>)
    ensures |r| == if |Filter(students, IsLead)| < 5 then |Filter(students, IsLead)| else 5
    ensures r <= Filter(students, IsLead)
    ensures forall k :: 0 <= k < |r| ==> r[k].status == "Lead"
    ensures IsSubsequence(r, students)
  {
    var leads := Filter(students, IsLead);
    FilterIsSubsequence(students, IsLead);
    SubsequencePrefix(SliceTo(leads, 5), leads, students);
    SliceTo(leads, 5)
  }

  /** The lead counter and the recent-leads list agree: the list is empty exactly when there
      are no leads, and it is complete whenever there are at most five */
  lemma RecentLeadsAgreeWithCount(students: seq<Student>)
    ensures RecentLeads(students) == [] <==> ComputeStats(students).leadsCount == 0
    ensures ComputeStats(students).leadsCount <= 5 ==> |RecentLeads(students)| == ComputeStats(students).leadsCount
  {
  }
}
