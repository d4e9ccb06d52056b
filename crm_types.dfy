/**
 * The CRM's records: a message of a conversation and a student with their
 * conversation. Timestamps are milliseconds since the epoch, as
 * `Date.getTime()` gives them; an absent `instructorNotes` is "".
 */
module CrmTypes {

  /** `sender: "student" | "instructor"` */
  datatype Sender = SentByStudent | SentByInstructor

  datatype Message = Message(id: string, content: string, sender: Sender, timestamp: int)

  /** `status` is kept as a string: the types file names "read" and "unread", while the
      dashboard compares it against "Lead", "Active" and "Inactive" */
  datatype Student = Student(
    id: string,
    name: string,
    email: string,
    country: string,
    countryFlag: string,
    status: string,
    tags: seq<string>,
    messages: seq<Message>,
    lastMessageDate: int,
    instructorNotes: string)
}
