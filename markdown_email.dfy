/**
 * The stored email record and its status lifecycle: a draft is marked sent
 * (with the time it was sent) or failed (with an error message), and the
 * `sent` / `failed` query scopes select records by status.
 */
module Email {
  import opened Wrappers

  /** A point in time; the caller supplies it where the record asks the clock. */
  datatype Timestamp = Timestamp(epochSeconds: int)

  const StatusDraft := "draft"
  const StatusSent := "sent"
  const StatusFailed := "failed"

  /** The values the status column admits. */
  const Statuses: set<string> := {StatusDraft, StatusSent, StatusFailed}

  /** The fillable attributes of a record: one row of the emails table. */
  datatype Attributes = Attributes(
    subject: string,
    markdownContent: string,
    htmlContent: string,
    recipients: seq<string>,
    variables: seq<(string, string)>,
    templateUsed: string,
    status: string,
    errorMessage: Option<string>,
    sentAt: Option<Timestamp>)

  /** The row after marking it sent at `now`. */
  function MarkedSent(a: Attributes, now: Timestamp): Attributes {
    a.(status := StatusSent, sentAt := Some(now))
  }

  /** The row after marking it failed with `message`. */
  function MarkedFailed(a: Attributes, message: string): Attributes {
    a.(status := StatusFailed, errorMessage := Some(message))
  }

  /** The content a transition must not touch. */
  predicate SameContent(a: Attributes, b: Attributes) {
    && a.subject == b.subject
    && a.markdownContent == b.markdownContent
    && a.htmlContent == b.htmlContent
    && a.recipients == b.recipients
    && a.variables == b.variables
    && a.templateUsed == b.templateUsed
  }

  /** An email record whose status fields change in place. */
  class MarkdownEmail {
    var subject: string
    var markdownContent: string
    var htmlContent: string
    var recipients: seq<string>
    var variables: seq<(string, string)>
    var templateUsed: string
    var status: string
    var errorMessage: Option<string>
    var sentAt: Option<Timestamp>
    /** Whether the record has been saved to its table. */
    var stored: bool

    /** The record's current attributes. */
    function Row(): Attributes
      reads this
    {
      Attributes(subject, markdownContent, htmlContent, recipients, variables,
                 templateUsed, status, errorMessage, sentAt)
    }

    /** A saved record's status is one the status column admits. */
    ghost predicate Valid()
      reads this
    {
      stored ==> status in Statuses
    }

    /** A record filled with `attributes`; `stored` says whether it has been saved. */
    constructor (attributes: Attributes, stored: bool)
      requires stored ==> attributes.status in Statuses
      ensures Row() == attributes && this.stored == stored
      ensures Valid()
    {
      subject := attributes.subject;
      markdownContent := attributes.markdownContent;
      htmlContent := attributes.htmlContent;
      recipients := attributes.recipients;
      variables := attributes.variables;
      templateUsed := attributes.templateUsed;
      status := attributes.status;
      errorMessage := attributes.errorMessage;
      sentAt := attributes.sentAt;
      this.stored := stored;
    }

    /**
     * Marks the email sent at `now`; the error message and the content stay as
     * they were. A record that was never saved is left untouched, since the
     * model update it goes through refuses to fill such a record.
     */
    method MarkAsSent(now: Timestamp)
      requires Valid()
      modifies this
      ensures stored == old(stored)
      ensures old(stored) ==> Row() == MarkedSent(old(Row()), now)
      ensures !old(stored) ==> Row() == old(Row())
      ensures Valid()
      ensures stored ==> status == StatusSent && sentAt == Some(now)
      ensures errorMessage == old(errorMessage) && SameContent(Row(), old(Row()))
    {
      if stored {
        status := StatusSent;
        sentAt := Some(now);
      }
    }

    /**
     * Marks the email failed with `message`; the send time and the content stay
     * as they were. A record that was never saved is left untouched.
     */
    method MarkAsFailed(message: string)
      requires Valid()
      modifies this
      ensures stored == old(stored)
      ensures old(stored) ==> Row() == MarkedFailed(old(Row()), message)
      ensures !old(stored) ==> Row() == old(Row())
      ensures Valid()
      ensures stored ==> status == StatusFailed && errorMessage == Some(message)
      ensures sentAt == old(sentAt) && SameContent(Row(), old(Row()))
    {
      if stored {
        status := StatusFailed;
        errorMessage := Some(message);
      }
    }
  }

  /** Marking sent yields a sent row with a send time, keeping content and error message. */
  lemma MarkedSentFacts(a: Attributes, now: Timestamp)
    ensures MarkedSent(a, now).status in Statuses
    ensures MarkedSent(a, now).status == StatusSent && MarkedSent(a, now).sentAt == Some(now)
    ensures MarkedSent(a, now).errorMessage == a.errorMessage && SameContent(MarkedSent(a, now), a)
  {
  }

  /** Marking failed yields a failed row with the message, keeping content and send time. */
  lemma MarkedFailedFacts(a: Attributes, message: string)
    ensures MarkedFailed(a, message).status in Statuses
    ensures MarkedFailed(a, message).status == StatusFailed
    ensures MarkedFailed(a, message).errorMessage == Some(message)
    ensures MarkedFailed(a, message).sentAt == a.sentAt && SameContent(MarkedFailed(a, message), a)
  {
  }

  /** The rows whose status is `status`, in their order (a `where('status', …)` query). */
  function WhereStatus(rows: seq<Attributes>, status: string): (r: seq<Attributes>)
    ensures |r| <= |rows|
    ensures forall x :: x in r <==> x in rows && x.status == status
    ensures forall x :: multiset(r)[x] == (if x.status == status then multiset(rows)[x] else 0)
    decreases |rows|
  {
    if rows == [] then []
    else
      assert rows == [rows[0]] + rows[1..];
      (if rows[0].status == status then [rows[0]] else []) + WhereStatus(rows[1..], status)
  }

  /** The `sent` scope: exactly the rows whose status is sent. */
  function ScopeSent(rows: seq<Attributes>): (r: seq<Attributes>)
    ensures |r| <= |rows|
    ensures forall x :: x in r <==> x in rows && x.status == StatusSent
    ensures forall x :: multiset(r)[x] == (if x.status == StatusSent then multiset(rows)[x] else 0)
  {
    WhereStatus(rows, StatusSent)
  }

  /** The `failed` scope: exactly the rows whose status is failed. */
  function ScopeFailed(rows: seq<Attributes>): (r: seq<Attributes>)
    ensures |r| <= |rows|
    ensures forall x :: x in r <==> x in rows && x.status == StatusFailed
    ensures forall x :: multiset(r)[x] == (if x.status == StatusFailed then multiset(rows)[x] else 0)
  {
    WhereStatus(rows, StatusFailed)
  }

  /** No row is in both scopes. */
  lemma ScopesDisjoint(rows: seq<Attributes>)
    ensures forall x :: x in ScopeSent(rows) ==> x !in ScopeFailed(rows)
  {
  }

  /** Together the two scopes select no more rows than there are. */
  lemma {:induction false} ScopesCount(rows: seq<Attributes>)
    ensures |ScopeSent(rows)| + |ScopeFailed(rows)| <= |rows|
    decreases |rows|
  {
    if rows != [] {
      ScopesCount(rows[1..]);
    }
  }

  /** A draft, a sent and a failed row: each scope selects exactly the one row of its status. */
  lemma ScopeOnePerStatus(draft: Attributes, sent: Attributes, failed: Attributes)
    requires draft.status == StatusDraft && sent.status == StatusSent && failed.status == StatusFailed
    ensures ScopeSent([draft, sent, failed]) == [sent]
    ensures ScopeFailed([draft, sent, failed]) == [failed]
  {
    var rows := [draft, sent, failed];
    assert rows[1..] == [sent, failed];
    assert rows[1..][1..] == [failed];
    assert [failed][1..] == [];
    assert WhereStatus([failed], StatusSent) == [];
    assert WhereStatus([sent, failed], StatusSent) == [sent];
    assert WhereStatus([failed], StatusFailed) == [failed];
    assert WhereStatus([sent, failed], StatusFailed) == [failed];
  }
}
