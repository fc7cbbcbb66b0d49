/**
 * The session state of the support-ticket script: the table held in
 * `st.session_state.df` and the file tickets.csv it is saved to, with the
 * three steps that change them: loading at session start, submitting the
 * form, and taking back the edited table.
 */
module TicketStore {
  import opened PythonText
  import opened Tickets

  /** What `pd.read_csv("tickets.csv")` yields; the empty table when the file does not exist. */
  function LoadTable(file: Option<Table>): Table {
    match file
    case None => []
    case Some(t) => t
  }

  class Store {
    /** `st.session_state.df`. */
    var table: Table
    /** The contents of tickets.csv; `None` while the file does not exist. */
    var file: Option<Table>

    /** Loading the file again, as a new session would, gives the table in memory. */
    ghost predicate Valid()
      reads this
    {
      table == LoadTable(file)
    }

    /** Lines 14-20: a new session reads tickets.csv, or starts empty when it is missing. */
    constructor Load(file: Option<Table>)
      ensures Valid() && this.file == file
      ensures file == None ==> table == []
      ensures file != None ==> table == file.value
    {
      this.file := file;
      table := LoadTable(file);
    }

    /**
     * Lines 31-62: Submit with the form's issue and priority on the date
     * `today`. A new ticket goes in front of the table and the table is saved;
     * a blank issue, or an ID that line 39 cannot read, changes nothing.
     */
    method Submit(issue: string, priority: string, today: string) returns (outcome: Outcome)
      requires Valid()
      modifies this
      ensures Valid()
      ensures outcome == CreateTicket(old(table), issue, priority, today)
      ensures outcome.Created? ==> table == [outcome.ticket] + old(table) && file == Some(table)
      ensures !outcome.Created? ==> table == old(table) && file == old(file)
      ensures outcome.Created? ==> |table| == |old(table)| + 1 && table[0] == outcome.ticket
                                   && table[1..] == old(table)
      ensures outcome.Created? ==> OpenCount(table) == OpenCount(old(table)) + 1
      ensures InOptions(old(table)) && priority in PriorityOptions ==> InOptions(table)
    {
      var t := table;
      outcome := CreateTicket(t, issue, priority, today);
      if outcome.Created? {
        var x := outcome.ticket;
        PrependCreated(t, issue, priority, today);
        table := [x] + t;
        file := Some(table);
        assert table[1..] == t;
      }
    }

    /**
     * Lines 78-102: with rows in the table, the editor's copy replaces the
     * table and is saved; with none, the editor is not shown and nothing changes.
     */
    method Reconcile(edited: Table)
      requires Valid()
      modifies this
      ensures Valid()
      ensures old(table) == [] ==> table == old(table) && file == old(file)
      ensures old(table) != [] ==> table == edited && file == Some(edited)
      ensures EditorOutput(old(table), edited) ==>
        Ids(table) == Ids(old(table)) && RecentNumber(table) == RecentNumber(old(table))
      ensures EditorOutput(old(table), edited) && InOptions(old(table)) ==> InOptions(table)
    {
      if table != [] {
        if EditorOutput(table, edited) {
          EditKeepsNextNumber(table, edited);
          if InOptions(table) {
            EditKeepsOptions(table, edited);
          }
        }
        table := edited;
        file := Some(table);
      }
    }
  }

  /** The first submit of a session without a file creates TICKET-1001, open, and saves it. */
  method FirstSubmit(issue: string, priority: string, today: string) returns (s: Store)
    requires !IsBlank(issue)
    ensures fresh(s) && s.Valid()
    ensures s.table == [Ticket("TICKET-1001", issue, "Open", priority, today)]
    ensures s.file == Some(s.table)
  {
    s := new Store.Load(None);
    FirstTicketId(issue, priority, today);
    var outcome := s.Submit(issue, priority, today);
  }
}
