/**
 * The ticket table of the support-ticket script and the pure steps taken on
 * it: deriving the number of the next ticket, building a new ticket, counting
 * tickets by status, and what the table editor hands back after user edits.
 */
module Tickets {
  import opened PythonText

  /** One row of the table, with the columns ID, Issue, Status, Priority and Date Submitted. */
  datatype Ticket = Ticket(id: string, issue: string, status: string, priority: string, dateSubmitted: string)

  /** The session's table; row 0 is the row shown first. */
  type Table = seq<Ticket>

  /** The choices the table editor offers for the Status column. */
  const StatusOptions: seq<string> := ["Open", "In Progress", "Closed"]
  /** The choices the form and the table editor offer for Priority. */
  const PriorityOptions: seq<string> := ["High", "Medium", "Low"]
  const OpenStatus: string := "Open"
  /** The "most recent ticket number" assumed when the table has no rows. */
  const EmptyTableNumber: int := 1000
  const IdPrefix: string := "TICKET-"

  /** The ID column. */
  function Ids(t: Table): (ids: seq<string>)
    ensures |ids| == |t| && forall i :: 0 <= i < |t| ==> ids[i] == t[i].id
  {
    seq(|t|, i requires 0 <= i < |t| => t[i].id)
  }

  /** The row's Status and Priority are among the editor's choices. */
  predicate RowInOptions(x: Ticket) {
    x.status in StatusOptions && x.priority in PriorityOptions
  }

  /** Every Status and Priority is one of the editor's choices. */
  predicate InOptions(t: Table) {
    forall i :: 0 <= i < |t| ==> RowInOptions(t[i])
  }

  /** A new row with a valid Status and Priority keeps the table within the options. */
  lemma PrependKeepsOptions(t: Table, x: Ticket)
    requires InOptions(t) && RowInOptions(x)
    ensures InOptions([x] + t)
  {
    assert forall i :: 1 <= i < |t| + 1 ==> ([x] + t)[i] == t[i - 1];
  }

  // ---------------------------------------------------------------------
  // Ticket IDs
  // ---------------------------------------------------------------------

  /** `int(id.split("-")[1])`; `None` where Python raises `IndexError` or `ValueError`. */
  function IdNumber(id: string): Option<int> {
    var parts := Split(id, '-');
    if |parts| < 2 then None else ParseInt(parts[1])
  }

  /** A formatted ID is `TICKET-` followed by at least one character. */
  lemma FormatIdShape(n: int)
    ensures |FormatId(n)| > |IdPrefix| && FormatId(n)[..|IdPrefix|] == IdPrefix
  {
    IntToStringShape(n);
  }

  /** An ID without `-` splits into one piece, so `split("-")[1]` raises `IndexError`. */
  lemma IdNumberNeedsDash(id: string)
    requires '-' !in id
    ensures IdNumber(id) == None
  {
    SplitNoSeparator(id, '-');
  }

  /** `f"TICKET-{n}"`. */
  function FormatId(n: int): (id: string)
  {
    IdPrefix + IntToString(n)
  }

  /** The text after `TICKET-`, when it has no `-` of its own, is what `int()` is given. */
  lemma IdNumberAfterPrefix(d: string)
    requires '-' !in d
    ensures IdNumber(IdPrefix + d) == ParseInt(d)
  {
    assert IdPrefix + d == "TICKET" + ['-'] + d;
    SplitAfterPiece("TICKET", '-', d);
    SplitNoSeparator(d, '-');
  }

  /** Reading the number back out of a formatted ID gives the number, unless it is negative. */
  lemma IdNumberOfFormatId(n: int)
    ensures IdNumber(FormatId(n)) == if n >= 0 then Some(n) else None
  {
    if n >= 0 {
      NonNegativeIdNumber(n);
    } else {
      NegativeIdNumber(n);
    }
  }

  lemma NonNegativeIdNumber(n: nat)
    ensures IdNumber(FormatId(n)) == Some(n)
  {
    var d := NatToString(n);
    assert '-' !in d by {
      assert forall i :: 0 <= i < |d| ==> IsDigit(d[i]);
    }
    IdNumberAfterPrefix(d);
    IntStringRoundTrip(n);
  }

  /** `TICKET--5` splits into `TICKET`, an empty piece, and `5`; `int("")` raises. */
  lemma NegativeIdNumber(n: int)
    requires n < 0
    ensures IdNumber(FormatId(n)) == None
  {
    var d := NatToString(-n);
    assert FormatId(n) == "TICKET" + ['-'] + ([] + ['-'] + d);
    SplitAfterPiece("TICKET", '-', [] + ['-'] + d);
    SplitAfterPiece([], '-', d);
    assert IsBlank([]);
  }

  /**
   * Lines 36-39: the number of the most recent ticket, 1000 for an empty
   * table, otherwise the number in the greatest ID by string order; `None`
   * where line 39 raises.
   */
  function RecentNumber(t: Table): Option<int> {
    if t == [] then Some(EmptyTableNumber) else IdNumber(MaxStr(Ids(t)))
  }

  /** The number is read from whichever row holds the string-greatest ID, wherever that row is. */
  lemma RecentNumberFromGreatest(t: Table, k: nat)
    requires k < |t|
    requires forall i :: 0 <= i < |t| ==> StrLe(t[i].id, t[k].id)
    ensures RecentNumber(t) == IdNumber(t[k].id)
  {
    MaxStrIsGreatest(Ids(t), k);
  }

  /** Editing cells other than ID leaves the next ticket number as it was. */
  lemma RecentNumberDependsOnIdsOnly(t: Table, u: Table)
    requires Ids(t) == Ids(u)
    ensures RecentNumber(t) == RecentNumber(u)
  {
    assert |t| == |Ids(t)| == |u|;
  }

  // ---------------------------------------------------------------------
  // Creating a ticket (lines 31-52)
  // ---------------------------------------------------------------------

  /** The result of pressing Submit. */
  datatype Outcome =
    | Created(ticket: Ticket)  // a new ticket, to be put in front of the table
    | EmptyIssue               // the error message of line 33; nothing created
    | MalformedId              // line 39 raises; nothing created

  /** The ticket that Submit creates from the form's issue and priority on the date `today`. */
  function CreateTicket(t: Table, issue: string, priority: string, today: string): (r: Outcome)
    ensures r.EmptyIssue? <==> IsBlank(issue)
    ensures r.MalformedId? <==> !IsBlank(issue) && RecentNumber(t) == None
    ensures r.Created? ==>
      r.ticket.issue == issue && r.ticket.status == OpenStatus
      && r.ticket.priority == priority && r.ticket.dateSubmitted == today
  {
    if Strip(issue) == [] then EmptyIssue else NextTicket(RecentNumber(t), issue, priority, today)
  }

  /** Lines 39-52 once the issue is known to be non-blank: `recent` is what line 39 reads. */
  function NextTicket(recent: Option<int>, issue: string, priority: string, today: string): Outcome {
    match recent
    case None => MalformedId
    case Some(n) => Created(Ticket(FormatId(n + 1), issue, OpenStatus, priority, today))
  }

  lemma CreatedFromRecent(t: Table, issue: string, priority: string, today: string, n: int)
    requires !IsBlank(issue) && RecentNumber(t) == Some(n)
    ensures CreateTicket(t, issue, priority, today) == Created(Ticket(FormatId(n + 1), issue, OpenStatus, priority, today))
  {
    assert !CreateTicket(t, issue, priority, today).EmptyIssue?;
  }

  /** The first ticket of an empty table is TICKET-1001. */
  lemma FirstTicketId(issue: string, priority: string, today: string)
    requires !IsBlank(issue)
    ensures CreateTicket([], issue, priority, today) == Created(Ticket("TICKET-1001", issue, "Open", priority, today))
  {
    FormatIdLiterals();
    CreatedFromRecent([], issue, priority, today, 1000);
  }

  lemma FormatIdLiterals()
    ensures FormatId(1001) == "TICKET-1001" && FormatId(1002) == "TICKET-1002"
  {
    assert NatToString(1) == "1";
    assert NatToString(10) == "10";
    assert NatToString(100) == "100";
  }

  /** With TICKET-1001 as the only row, the next ticket is TICKET-1002. */
  lemma SecondTicketId(x: Ticket, issue: string, priority: string, today: string)
    requires x.id == "TICKET-1001" && !IsBlank(issue)
    ensures CreateTicket([x], issue, priority, today) == Created(Ticket("TICKET-1002", issue, "Open", priority, today))
  {
    FormatIdLiterals();
    RecentNumberFromGreatest([x], 0);
    IdNumberOfFormatId(1001);
    CreatedFromRecent([x], issue, priority, today, 1001);
  }

  /**
   * On a table with rows, the new ID's number is one more than the number `n`
   * in the string-greatest ID, and `n + 1` can be read back from the new ID.
   */
  lemma NextIdAfterGreatest(t: Table, k: nat, n: int, issue: string, priority: string, today: string)
    requires k < |t| && !IsBlank(issue)
    requires forall i :: 0 <= i < |t| ==> StrLe(t[i].id, t[k].id)
    requires IdNumber(t[k].id) == Some(n)
    ensures CreateTicket(t, issue, priority, today) == Created(Ticket(FormatId(n + 1), issue, OpenStatus, priority, today))
    ensures n >= -1 ==> IdNumber(FormatId(n + 1)) == Some(n + 1)
  {
    RecentNumberFromGreatest(t, k);
    CreatedFromRecent(t, issue, priority, today, n);
    IdNumberOfFormatId(n + 1);
  }

  /** On a table with rows, a string-greatest ID without a readable number makes Submit fail. */
  lemma MalformedGreatestId(t: Table, k: nat, issue: string, priority: string, today: string)
    requires k < |t| && !IsBlank(issue)
    requires forall i :: 0 <= i < |t| ==> StrLe(t[i].id, t[k].id)
    requires IdNumber(t[k].id) == None
    ensures CreateTicket(t, issue, priority, today) == MalformedId
  {
    RecentNumberFromGreatest(t, k);
  }

  // ---------------------------------------------------------------------
  // Uniqueness of generated IDs
  // ---------------------------------------------------------------------

  /** `TICKET-` followed by exactly `w` decimal digits, the first of them not 0. */
  predicate IsTicketId(id: string, w: nat) {
    w >= 1 && |id| == |IdPrefix| + w && id[..|IdPrefix|] == IdPrefix
    && AllDigits(id[|IdPrefix|..]) && id[|IdPrefix|] != '0'
  }

  /** The number written in a ticket ID of the form above. */
  function TicketNumber(id: string, w: nat): nat
    requires IsTicketId(id, w)
  {
    DigitsValue(id[|IdPrefix|..])
  }

  /** `int()` reads back the number of a ticket ID with `w` digits. */
  lemma TicketIdParses(id: string, w: nat)
    requires IsTicketId(id, w)
    ensures IdNumber(id) == Some(TicketNumber(id, w) as int)
  {
    TicketIdDigits(id, w);
    ParseIntDigits(id[|IdPrefix|..]);
  }

  /** The number of a ticket ID with `w` digits lies in `[10^(w-1), 10^w)`. */
  lemma TicketIdRange(id: string, w: nat)
    requires IsTicketId(id, w)
    ensures Pow10(w - 1) <= TicketNumber(id, w) < Pow10(w)
  {
    LeadingDigitBounds(id[|IdPrefix|..]);
  }

  lemma TicketIdDigits(id: string, w: nat)
    requires IsTicketId(id, w)
    ensures IdNumber(id) == ParseInt(id[|IdPrefix|..])
  {
    var d := id[|IdPrefix|..];
    assert id == IdPrefix + d;
    assert '-' !in d by {
      assert forall i :: 0 <= i < |d| ==> IsDigit(d[i]);
    }
    IdNumberAfterPrefix(d);
  }

  lemma AtLeastOnce(x: nat, p: nat)
    requires x >= 1
    ensures x * p >= p
  {
  }

  /** A string of `w` digits that does not start with 0 denotes a number in `[10^(w-1), 10^w)`. */
  lemma LeadingDigitBounds(d: string)
    requires |d| > 0 && AllDigits(d) && d[0] != '0'
    ensures Pow10(|d| - 1) <= DigitsValue(d) < Pow10(|d|)
  {
    DigitsValueBound(d);
    DigitsValueFront(d);
    AtLeastOnce(DigitValue(d[0]), Pow10(|d| - 1));
  }

  /** Every ID in the table is a ticket ID with `w` digits. */
  predicate SameWidthIds(t: Table, w: nat) {
    forall i :: 0 <= i < |t| ==> IsTicketId(t[i].id, w)
  }

  /** No ID in the table has the greatest `w`-digit number (all nines). */
  predicate BelowRollover(t: Table, w: nat)
    requires SameWidthIds(t, w)
  {
    forall i :: 0 <= i < |t| ==> TicketNumber(t[i].id, w) + 1 < Pow10(w)
  }

  /** Of two IDs with `w` digits, the string-smaller one has the smaller number. */
  lemma TicketIdOrder(a: string, b: string, w: nat)
    requires IsTicketId(a, w) && IsTicketId(b, w)
    ensures StrLess(a, b) <==> TicketNumber(a, w) < TicketNumber(b, w)
  {
    var n := |IdPrefix|;
    assert a == IdPrefix + a[n..] && b == IdPrefix + b[n..];
    StrLessCommonPrefix(IdPrefix, a[n..], b[n..]);
    SameWidthOrder(a[n..], b[n..]);
  }

  /**
   * When every ID is `TICKET-` with `w` digits and no number is all nines,
   * the generated ID has `w` digits too and is string-greater than every
   * existing ID, so it repeats none of them.
   */
  lemma NewIdExceedsAll(t: Table, w: nat, issue: string, priority: string, today: string)
    requires t != [] && !IsBlank(issue)
    requires SameWidthIds(t, w) && BelowRollover(t, w)
    ensures CreateTicket(t, issue, priority, today).Created?
    ensures var x := CreateTicket(t, issue, priority, today).ticket;
            IsTicketId(x.id, w) && forall i :: 0 <= i < |t| ==> StrLess(t[i].id, x.id) && t[i].id != x.id
  {
    var k, n := GreatestTicket(t, w);
    NextIdFresh(t, w, k, n);
    CreatedFromRecent(t, issue, priority, today, n);
  }

  /** The successor of the greatest ID's number gives an ID with `w` digits that is string-greater than every ID. */
  lemma NextIdFresh(t: Table, w: nat, k: nat, n: int)
    requires SameWidthIds(t, w) && BelowRollover(t, w)
    requires k < |t| && forall i :: 0 <= i < |t| ==> StrLe(t[i].id, t[k].id)
    requires n == TicketNumber(t[k].id, w)
    ensures IsTicketId(FormatId(n + 1), w)
    ensures forall i :: 0 <= i < |t| ==> StrLess(t[i].id, FormatId(n + 1)) && t[i].id != FormatId(n + 1)
  {
    SuccessorId(t[k].id, w);
    IdAboveGreatest(t, w, k, FormatId(n + 1));
  }

  /** The row holding the string-greatest ID; line 39 reads its number. */
  lemma GreatestTicket(t: Table, w: nat) returns (k: nat, n: int)
    requires t != [] && SameWidthIds(t, w)
    ensures k < |t| && forall i :: 0 <= i < |t| ==> StrLe(t[i].id, t[k].id)
    ensures n == TicketNumber(t[k].id, w) && RecentNumber(t) == Some(n)
  {
    k :| 0 <= k < |t| && Ids(t)[k] == MaxStr(Ids(t));
    forall i | 0 <= i < |t| ensures StrLe(t[i].id, t[k].id) {
      assert StrLe(Ids(t)[i], MaxStr(Ids(t)));
    }
    TicketIdParses(t[k].id, w);
    n := TicketNumber(t[k].id, w);
  }

  /** The successor of a ticket number below the rollover is written as a ticket ID of the same width. */
  lemma SuccessorId(id: string, w: nat)
    requires IsTicketId(id, w) && TicketNumber(id, w) + 1 < Pow10(w)
    ensures IsTicketId(FormatId(TicketNumber(id, w) + 1), w)
    ensures TicketNumber(FormatId(TicketNumber(id, w) + 1), w) == TicketNumber(id, w) + 1
  {
    var n := TicketNumber(id, w) + 1;
    TicketIdRange(id, w);
    var d := NatToString(n);
    NatToStringWidth(n, w);
    var x := FormatId(n);
    assert x == IdPrefix + d;
    assert x[|IdPrefix|..] == d;
    assert x[..|IdPrefix|] == IdPrefix;
  }

  /** An ID whose number exceeds the greatest ID's number is string-greater than every ID. */
  lemma IdAboveGreatest(t: Table, w: nat, k: nat, id: string)
    requires SameWidthIds(t, w) && k < |t| && IsTicketId(id, w)
    requires forall i :: 0 <= i < |t| ==> StrLe(t[i].id, t[k].id)
    requires TicketNumber(t[k].id, w) < TicketNumber(id, w)
    ensures forall i :: 0 <= i < |t| ==> StrLess(t[i].id, id) && t[i].id != id
  {
    forall i | 0 <= i < |t|
      ensures StrLess(t[i].id, id) && t[i].id != id
    {
      TicketIdOrder(t[i].id, t[k].id, w);
      TicketIdOrder(t[i].id, id, w);
      StrLessIrreflexive(id);
    }
  }

  /**
   * At each width boundary the string order no longer follows the numbers:
   * once TICKET-<10^w> has been issued (TICKET-10000 for `w` = 4), the table
   * holds it beside TICKET-<10^w - 1> (here a two-row table with just those
   * two rows), the all-nines ID is the greatest string, and Submit creates
   * TICKET-<10^w> a second time.
   */
  lemma RolloverReissuesId(w: nat, x: Ticket, y: Ticket, issue: string, priority: string, today: string)
    requires w >= 1 && !IsBlank(issue)
    requires x.id == FormatId(Pow10(w)) && y.id == FormatId(Pow10(w) - 1)
    ensures var r := CreateTicket([x, y], issue, priority, today);
            r.Created? && r.ticket.id == x.id
  {
    var n := RolloverRecent(w, x, y);
    CreatedWithId([x, y], issue, priority, today, n, x.id);
  }

  /** In the two-row rollover table line 39 reads `10^w - 1`, whose successor is the first row's ID. */
  lemma RolloverRecent(w: nat, x: Ticket, y: Ticket) returns (n: nat)
    requires w >= 1 && x.id == FormatId(Pow10(w)) && y.id == FormatId(Pow10(w) - 1)
    ensures RecentNumber([x, y]) == Some(n) && x.id == FormatId(n + 1)
  {
    RolloverOrder(w, x.id, y.id);
    n := LesserRowRead(Pow10(w), x, y);
  }

  /** When `TICKET-<p>` comes before `TICKET-<p - 1>` as strings, line 39 reads `p - 1` from the pair. */
  lemma LesserRowRead(p: nat, x: Ticket, y: Ticket) returns (n: nat)
    requires p >= 1 && x.id == FormatId(p) && y.id == FormatId(p - 1) && StrLess(x.id, y.id)
    ensures n == p - 1 && RecentNumber([x, y]) == Some(n) && x.id == FormatId(n + 1)
  {
    n := p - 1;
    SecondRowGreatest(n, x, y);
  }

  /** When line 39 reads `n` and `id` is `TICKET-<n + 1>`, Submit creates a row with ID `id`. */
  lemma CreatedWithId(t: Table, issue: string, priority: string, today: string, n: int, id: string)
    requires !IsBlank(issue) && RecentNumber(t) == Some(n) && id == FormatId(n + 1)
    ensures var r := CreateTicket(t, issue, priority, today);
            r.Created? && r.ticket.id == id
  {
    CreatedFromRecent(t, issue, priority, today, n);
  }

  /** When the second row's ID `TICKET-<n>` is the string-greater one, line 39 reads `n` from it. */
  lemma SecondRowGreatest(n: nat, x: Ticket, y: Ticket)
    requires y.id == FormatId(n) && StrLess(x.id, y.id)
    ensures RecentNumber([x, y]) == Some(n)
  {
    SecondRowRead(x, y);
    NonNegativeIdNumber(n);
  }

  /** Of two rows, the one with the string-greater ID is the one line 39 reads. */
  lemma SecondRowRead(x: Ticket, y: Ticket)
    requires StrLess(x.id, y.id)
    ensures RecentNumber([x, y]) == IdNumber(y.id)
  {
    var t := [x, y];
    assert t[0].id == x.id && t[1].id == y.id;
    RecentNumberFromGreatest(t, 1);
  }

  /** With `TICKET-<n>` as the only row, line 39 reads `n`. */
  lemma OnlyRowNumber(n: nat, x: Ticket)
    requires x.id == FormatId(n)
    ensures RecentNumber([x]) == Some(n)
  {
    RecentNumberFromGreatest([x], 0);
    NonNegativeIdNumber(n);
  }

  /** As strings, TICKET-<10^w> comes before TICKET-<10^w - 1>: its first digit is 1, the other's is 9. */
  lemma RolloverOrder(w: nat, hi: string, lo: string)
    requires w >= 1 && hi == FormatId(Pow10(w)) && lo == FormatId(Pow10(w) - 1)
    ensures StrLess(hi, lo)
  {
    var p := Pow10(w);
    PowerDigits(w);
    assert LeadsOneNine(p);
    var a := NatToString(p);
    var b := NatToString(p - 1);
    assert a[0] == '1' && b[0] == '9';
    assert StrLess(a, b);
    assert FormatId(p) == IdPrefix + a && FormatId(p - 1) == IdPrefix + b;
    StrLessCommonPrefix(IdPrefix, a, b);
  }

  /** `str(p)` starts with 1 and `str(p - 1)` with 9. */
  predicate LeadsOneNine(p: nat) {
    p >= 1 && NatToString(p)[0] == '1' && NatToString(p - 1)[0] == '9'
  }

  /** `str(10^w)` starts with 1 and `str(10^w - 1)` with 9. */
  lemma {:induction false} PowerDigits(w: nat)
    requires w >= 1
    ensures LeadsOneNine(Pow10(w))
  {
    if w == 1 {
      TenAndNine(w);
    } else {
      PowerDigits(w - 1);
      PowerDigitsStep(w);
    }
  }

  lemma TenAndNine(w: nat)
    requires w == 1
    ensures LeadsOneNine(Pow10(w))
  {
    assert Pow10(w) == 10;
    assert NatToString(10) == "10";
    assert NatToString(9) == "9";
  }

  lemma PowerDigitsStep(w: nat)
    requires w >= 2 && LeadsOneNine(Pow10(w - 1))
    ensures LeadsOneNine(Pow10(w))
  {
    var p := PowerStep(w);
    LeadingDigitsTimesTen(p, Pow10(w));
  }

  /** Multiplying by ten keeps the leading 1 of `p` and the leading 9 of `p - 1`. */
  lemma LeadingDigitsTimesTen(p: nat, q: nat)
    requires p >= 2 && q == 10 * p && LeadsOneNine(p)
    ensures LeadsOneNine(q)
  {
    TimesTenDigits(p);
    TimesTenLessOneDigits(p);
  }

  lemma PowerStep(w: nat) returns (p: nat)
    requires w >= 2
    ensures p == Pow10(w - 1) && p >= 10 && Pow10(w) == 10 * p
  {
    p := Pow10(w - 1);
    assert p == 10 * Pow10(w - 2);
  }

  /** `str(10 * p)` is `str(p)` followed by 0. */
  lemma TimesTenDigits(p: nat)
    requires p >= 1
    ensures NatToString(10 * p) == NatToString(p) + ['0']
  {
    assert (10 * p) / 10 == p && (10 * p) % 10 == 0;
  }

  /** `str(10 * p - 1)` is `str(p - 1)` followed by 9. */
  lemma TimesTenLessOneDigits(p: nat)
    requires p >= 2
    ensures NatToString(10 * p - 1) == NatToString(p - 1) + ['9']
  {
    var q := p - 1;
    assert 10 * p - 1 == 10 * q + 9;
    assert (10 * q + 9) / 10 == q && (10 * q + 9) % 10 == 9;
  }

  /**
   * Without the rollover condition the new ID need not be string-greater:
   * with TICKET-<10^w - 1> (TICKET-9999 for `w` = 4) as the only row, the new
   * TICKET-<10^w> is string-smaller.
   */
  lemma RolloverFallsBelow(w: nat, x: Ticket, issue: string, priority: string, today: string)
    requires w >= 1 && x.id == FormatId(Pow10(w) - 1) && !IsBlank(issue)
    ensures var r := CreateTicket([x], issue, priority, today);
            r.Created? && r.ticket.id == FormatId(Pow10(w)) && StrLess(r.ticket.id, x.id)
  {
    var n: nat := Pow10(w) - 1;
    var id := FormatId(Pow10(w));
    RolloverOrder(w, id, x.id);
    OnlyRowNumber(n, x);
    CreatedWithId([x], issue, priority, today, n, id);
  }

  /** IDs are pairwise different. */
  predicate DistinctIds(t: Table) {
    forall i, j :: 0 <= i < j < |t| ==> t[i].id != t[j].id
  }

  /**
   * When every ID is `TICKET-` with `w` digits and the IDs are distinct,
   * putting the new ticket in front keeps them distinct. Below the rollover
   * the new ID is string-greater than every ID; at it, the new ID has one
   * digit more than every ID.
   */
  lemma SubmitKeepsIdsDistinct(t: Table, w: nat, issue: string, priority: string, today: string)
    requires !IsBlank(issue) && SameWidthIds(t, w) && DistinctIds(t)
    ensures CreateTicket(t, issue, priority, today).Created?
    ensures DistinctIds([CreateTicket(t, issue, priority, today).ticket] + t)
  {
    if t == [] {
      CreatedFromRecent(t, issue, priority, today, EmptyTableNumber);
    } else {
      var k, n := GreatestTicket(t, w);
      NextIdDistinct(t, w, k, n);
      CreatedFromRecent(t, issue, priority, today, n);
      PrependFreshId(t, CreateTicket(t, issue, priority, today).ticket);
    }
  }

  /** Below the rollover the new row also keeps every ID at width `w`. */
  lemma SubmitKeepsIdWidth(t: Table, w: nat, issue: string, priority: string, today: string)
    requires t != [] && !IsBlank(issue)
    requires SameWidthIds(t, w) && BelowRollover(t, w)
    ensures CreateTicket(t, issue, priority, today).Created?
    ensures SameWidthIds([CreateTicket(t, issue, priority, today).ticket] + t, w)
  {
    NewIdExceedsAll(t, w, issue, priority, today);
    PrependSameWidth(t, CreateTicket(t, issue, priority, today).ticket, w);
  }

  /** The ID after the string-greatest one differs from every ID, all nines included. */
  lemma NextIdDistinct(t: Table, w: nat, k: nat, n: int)
    requires SameWidthIds(t, w)
    requires k < |t| && forall i :: 0 <= i < |t| ==> StrLe(t[i].id, t[k].id)
    requires n == TicketNumber(t[k].id, w)
    ensures forall i :: 0 <= i < |t| ==> t[i].id != FormatId(n + 1)
  {
    if n + 1 < Pow10(w) {
      SuccessorIdDistinct(t, w, k, n);
    } else {
      RolloverSuccessorDistinct(t, w, k, n);
    }
  }

  /** At the rollover the greatest number is all nines, so its successor is `10^w`. */
  lemma RolloverSuccessorDistinct(t: Table, w: nat, k: nat, n: int)
    requires SameWidthIds(t, w) && k < |t|
    requires n == TicketNumber(t[k].id, w) && n + 1 >= Pow10(w)
    ensures forall i :: 0 <= i < |t| ==> t[i].id != FormatId(n + 1)
  {
    TicketIdRange(t[k].id, w);
    RolloverIdDistinct(t, w, n + 1);
  }

  /** Below the rollover the ID after the string-greatest one is string-greater than, so different from, every ID. */
  lemma SuccessorIdDistinct(t: Table, w: nat, k: nat, n: int)
    requires SameWidthIds(t, w)
    requires k < |t| && forall i :: 0 <= i < |t| ==> StrLe(t[i].id, t[k].id)
    requires n == TicketNumber(t[k].id, w) && n + 1 < Pow10(w)
    ensures forall i :: 0 <= i < |t| ==> t[i].id != FormatId(n + 1)
  {
    SuccessorId(t[k].id, w);
    IdAboveGreatest(t, w, k, FormatId(n + 1));
  }

  /** `TICKET-<10^w>` has one digit more than every `w`-digit ID, so it is none of them. */
  lemma RolloverIdDistinct(t: Table, w: nat, m: int)
    requires SameWidthIds(t, w) && m == Pow10(w)
    ensures forall i :: 0 <= i < |t| ==> t[i].id != FormatId(m)
  {
    NatToStringWidth(m, w + 1);
    assert |FormatId(m)| == |IdPrefix| + w + 1;
  }

  /** A row whose ID is new keeps the IDs distinct. */
  lemma PrependFreshId(t: Table, x: Ticket)
    requires DistinctIds(t) && forall i :: 0 <= i < |t| ==> t[i].id != x.id
    ensures DistinctIds([x] + t)
  {
    var u := [x] + t;
    assert forall j :: 1 <= j < |u| ==> u[j] == t[j - 1];
  }

  /** A row with a `w`-digit ticket ID keeps every ID at width `w`. */
  lemma PrependSameWidth(t: Table, x: Ticket, w: nat)
    requires SameWidthIds(t, w) && IsTicketId(x.id, w)
    ensures SameWidthIds([x] + t, w)
  {
    var u := [x] + t;
    assert forall j :: 1 <= j < |u| ==> u[j] == t[j - 1];
  }

  // ---------------------------------------------------------------------
  // Counting by status (line 109)
  // ---------------------------------------------------------------------

  /** The number of rows whose Status is `s`: `len(df[df.Status == s])`. */
  function CountStatus(t: Table, s: string): (n: nat)
    ensures n <= |t|
  {
    if t == [] then 0 else (if t[0].status == s then 1 else 0) + CountStatus(t[1..], s)
  }

  /** The count is 0 exactly when no row has the status, and the table length exactly when every row has it. */
  lemma {:induction false} CountStatusExtremes(t: Table, s: string)
    ensures CountStatus(t, s) == 0 <==> forall i :: 0 <= i < |t| ==> t[i].status != s
    ensures CountStatus(t, s) == |t| <==> forall i :: 0 <= i < |t| ==> t[i].status == s
  {
    if t != [] {
      CountStatusExtremes(t[1..], s);
      assert forall i :: 1 <= i < |t| ==> t[i] == t[1..][i - 1];
    }
  }

  /** The "Number of open tickets" metric. */
  function OpenCount(t: Table): nat {
    CountStatus(t, OpenStatus)
  }

  /** The Status column. */
  function Statuses(t: Table): (col: seq<string>)
    ensures |col| == |t| && forall i :: 0 <= i < |t| ==> col[i] == t[i].status
  {
    seq(|t|, i requires 0 <= i < |t| => t[i].status)
  }

  /** The count equals how often `s` occurs in the Status column. */
  lemma {:induction false} CountIsMultiplicity(t: Table, s: string)
    ensures CountStatus(t, s) == multiset(Statuses(t))[s]
  {
    if t != [] {
      CountIsMultiplicity(t[1..], s);
      assert Statuses(t) == [t[0].status] + Statuses(t[1..]);
    }
  }

  /** Counting a table made of two parts adds the parts' counts. */
  lemma {:induction false} CountConcat(a: Table, b: Table, s: string)
    ensures CountStatus(a + b, s) == CountStatus(a, s) + CountStatus(b, s)
  {
    if a != [] {
      CountConcat(a[1..], b, s);
      assert (a + b)[1..] == a[1..] + b;
    } else {
      assert a + b == b;
    }
  }

  /** Setting row `i`'s Status to `v` moves that row from its old status's count to `v`'s. */
  lemma CountAfterStatusEdit(t: Table, i: nat, v: string, s: string)
    requires i < |t|
    ensures CountStatus(t[i := t[i].(status := v)], s)
            == CountStatus(t, s) - (if t[i].status == s then 1 else 0) + (if v == s then 1 else 0)
  {
    var u := t[i := t[i].(status := v)];
    assert t == t[..i] + [t[i]] + t[i + 1..];
    assert u == t[..i] + [u[i]] + t[i + 1..];
    CountConcat(t[..i] + [t[i]], t[i + 1..], s);
    CountConcat(t[..i], [t[i]], s);
    CountConcat(t[..i] + [u[i]], t[i + 1..], s);
    CountConcat(t[..i], [u[i]], s);
  }

  /** Closing an open ticket lowers the open count by one and raises the closed count by one. */
  lemma CloseOpenTicket(t: Table, i: nat)
    requires i < |t| && t[i].status == "Open"
    ensures OpenCount(t[i := t[i].(status := "Closed")]) == OpenCount(t) - 1
    ensures CountStatus(t[i := t[i].(status := "Closed")], "Closed") == CountStatus(t, "Closed") + 1
  {
    CountAfterStatusEdit(t, i, "Closed", "Open");
    CountAfterStatusEdit(t, i, "Closed", "Closed");
  }

  /** A row put in front adds one to its own status's count and nothing to the others. */
  lemma PrependCount(t: Table, x: Ticket, s: string)
    ensures CountStatus([x] + t, s) == CountStatus(t, s) + (if x.status == s then 1 else 0)
  {
    assert ([x] + t)[1..] == t;
  }

  /**
   * An open row with an offered priority, put in front, raises the open
   * count by one and keeps the table within the options.
   */
  lemma PrependOpenTicket(t: Table, x: Ticket)
    requires x.status == OpenStatus
    ensures OpenCount([x] + t) == OpenCount(t) + 1
    ensures InOptions(t) && x.priority in PriorityOptions ==> InOptions([x] + t)
  {
    PrependCount(t, x, OpenStatus);
    if InOptions(t) && x.priority in PriorityOptions {
      assert x.status == StatusOptions[0];
      PrependKeepsOptions(t, x);
    }
  }

  /** The row Submit creates is Open and carries the form's priority, so prepending it keeps the count and options facts. */
  lemma PrependCreated(t: Table, issue: string, priority: string, today: string)
    requires CreateTicket(t, issue, priority, today).Created?
    ensures var x := CreateTicket(t, issue, priority, today).ticket;
            OpenCount([x] + t) == OpenCount(t) + 1
            && (InOptions(t) && priority in PriorityOptions ==> InOptions([x] + t))
  {
    PrependOpenTicket(t, CreateTicket(t, issue, priority, today).ticket);
  }

  // ---------------------------------------------------------------------
  // The table editor (lines 78-98)
  // ---------------------------------------------------------------------

  /**
   * What the table editor may hand back for the table it showed: the same
   * rows in the same places (rows cannot be added or removed), ID and Date
   * Submitted untouched (the disabled columns), and every Status and Priority
   * either left as shown or picked from its select box's options.
   */
  predicate EditorOutput(shown: Table, edited: Table) {
    |edited| == |shown|
    && forall i :: 0 <= i < |shown| ==>
         edited[i].id == shown[i].id && edited[i].dateSubmitted == shown[i].dateSubmitted
         && (edited[i].status == shown[i].status || edited[i].status in StatusOptions)
         && (edited[i].priority == shown[i].priority || edited[i].priority in PriorityOptions)
  }

  /** Handing back the table without any edit is an editor output, whatever its cells hold. */
  lemma NoEditIsEditorOutput(t: Table)
    ensures EditorOutput(t, t)
  {
  }

  /** After an edit the ID column is the same, so the next ticket number is too. */
  lemma EditKeepsNextNumber(shown: Table, edited: Table)
    requires EditorOutput(shown, edited)
    ensures Ids(edited) == Ids(shown)
    ensures RecentNumber(edited) == RecentNumber(shown)
  {
    RecentNumberDependsOnIdsOnly(shown, edited);
  }

  /** A table within the options stays within them after an edit. */
  lemma EditKeepsOptions(shown: Table, edited: Table)
    requires EditorOutput(shown, edited) && InOptions(shown)
    ensures InOptions(edited)
  {
    forall i | 0 <= i < |edited| ensures RowInOptions(edited[i]) {
      assert RowInOptions(shown[i]);
    }
  }

  /** An edit keeps the conditions under which the next generated ID is fresh. */
  lemma EditKeepsIdConditions(shown: Table, edited: Table, w: nat)
    requires EditorOutput(shown, edited)
    requires SameWidthIds(shown, w) && BelowRollover(shown, w) && DistinctIds(shown)
    ensures SameWidthIds(edited, w) && BelowRollover(edited, w) && DistinctIds(edited)
  {
  }
}
