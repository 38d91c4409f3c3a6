/** What both `SheetCommands.get_balance` implementations share: how a row
    of the "User Backpack" sheet (range A3:C, one list of cell texts per
    row) matches a member, what balance a matching row carries, and the two
    reply texts. The Google Sheets fetch itself is outside the model; its
    rows are an input. */
module SheetScan {
  import opened Wrappers

  type Row = seq<string>

  /** The member fields the command reads. */
  datatype Member = Member(name: string, discriminator: string, displayName: string)

  /** `str(member)`: the Discord library renders a member as `name#discriminator`. */
  function MemberText(m: Member): string {
    m.name + "#" + m.discriminator
  }

  /** The discriminator is empty or does not end in `s`, as holds for
      Discord's numeric discriminators. Under it the two replies differ. */
  predicate PlainDiscriminator(m: Member) {
    |m.discriminator| == 0 || m.discriminator[|m.discriminator| - 1] != 's'
  }

  /** A balance read off a matching row: the third cell's text, or the
      integer 0 when the row has only two cells. */
  datatype Balance = Cell(text: string) | Zero

  /** How the balance appears inside an f-string. */
  function BalanceText(b: Balance): string {
    match b
    case Cell(t) => t
    case Zero => "0"
  }

  /** A row of at least two cells whose first cell is the member's name and
      whose second is `'#' + discriminator`. */
  predicate RowMatches(row: Row, m: Member) {
    |row| >= 2 && row[0] == m.name && row[1] == "#" + m.discriminator
  }

  function RowBalance(row: Row): Balance
    requires |row| >= 2
  {
    if |row| > 2 then Cell(row[2]) else Zero
  }

  /** Row `k` matches and no later row does. */
  predicate IsLastMatch(rows: seq<Row>, k: int, m: Member) {
    && 0 <= k < |rows|
    && RowMatches(rows[k], m)
    && forall j :: k < j < |rows| ==> !RowMatches(rows[j], m)
  }

  predicate NoMatch(rows: seq<Row>, m: Member) {
    forall i :: 0 <= i < |rows| ==> !RowMatches(rows[i], m)
  }

  /** Reference definition of the scan, read from the bottom of the sheet:
      the balance of the last matching row, if any. */
  function LastMatch(rows: seq<Row>, m: Member): (r: Option<Balance>)
    ensures r.None? <==> NoMatch(rows, m)
    ensures r.Some? ==> exists k :: IsLastMatch(rows, k, m) && r.value == RowBalance(rows[k])
  {
    if |rows| == 0 then None
    else if RowMatches(rows[|rows| - 1], m) then Some(RowBalance(rows[|rows| - 1]))
    else
      var r := LastMatch(rows[..|rows| - 1], m);
      assert forall k :: IsLastMatch(rows[..|rows| - 1], k, m) ==> IsLastMatch(rows, k, m);
      r
  }

  /** Appending a row: it wins if it matches, otherwise nothing changes. */
  lemma LastMatchSnoc(rows: seq<Row>, row: Row, m: Member)
    ensures LastMatch(rows + [row], m) == if RowMatches(row, m) then Some(RowBalance(row)) else LastMatch(rows, m)
  {
  }

  /** The last match is unique, so the reference is determined by it. */
  lemma LastMatchAt(rows: seq<Row>, k: int, m: Member)
    requires IsLastMatch(rows, k, m)
    ensures LastMatch(rows, m) == Some(RowBalance(rows[k]))
  {
  }

  /** A row of fewer than two cells, wherever it sits, does not change the
      balance found. */
  lemma {:induction false} ShortRowIgnored(before: seq<Row>, row: Row, after: seq<Row>, m: Member)
    requires |row| < 2
    ensures LastMatch(before + [row] + after, m) == LastMatch(before + after, m)
    decreases |after|
  {
    if |after| == 0 {
      assert before + [row] + after == before + [row];
      assert before + after == before;
      LastMatchSnoc(before, row, m);
    } else {
      var init := after[..|after| - 1];
      var x := after[|after| - 1];
      assert before + [row] + after == (before + [row] + init) + [x];
      assert before + after == (before + init) + [x];
      LastMatchSnoc(before + [row] + init, x, m);
      LastMatchSnoc(before + init, x, m);
      ShortRowIgnored(before, row, init, m);
    }
  }

  function NotFoundMessage(m: Member): string {
    "Error: Balance not found for user " + MemberText(m) + "!"
  }

  function FoundMessage(m: Member, b: Balance): string {
    m.displayName + " has **" + BalanceText(b) + "** coins!"
  }

  /** The reply for the outcome of a scan. */
  function Reply(m: Member, balance: Option<Balance>): string {
    match balance
    case None => NotFoundMessage(m)
    case Some(b) => FoundMessage(m, b)
  }

  /** The reply for the reference scan: the error text when nothing
      matches, the last match's balance otherwise, and (for discriminators
      not ending in `s`) the error text only when nothing matches. */
  lemma ReplyOfLastMatch(m: Member, rows: seq<Row>)
    ensures NoMatch(rows, m) ==> Reply(m, LastMatch(rows, m)) == NotFoundMessage(m)
    ensures forall k :: IsLastMatch(rows, k, m) ==> Reply(m, LastMatch(rows, m)) == FoundMessage(m, RowBalance(rows[k]))
    ensures PlainDiscriminator(m) ==>
      (Reply(m, LastMatch(rows, m)) == NotFoundMessage(m) <==> NoMatch(rows, m))
  {
    var found := LastMatch(rows, m);
    if found.Some? && PlainDiscriminator(m) {
      RepliesDiffer(m, found.value);
    }
  }

  /** The two replies differ whenever the discriminator does not end in
      `s` (Discord's are digits): the not-found text then ends in a
      character other than the `s` of "coins!". Without that, a member
      named to imitate the other text can make them coincide. */
  lemma RepliesDiffer(m: Member, b: Balance)
    requires PlainDiscriminator(m)
    ensures NotFoundMessage(m) != FoundMessage(m, b)
  {
    var nf := NotFoundMessage(m);
    var f := FoundMessage(m, b);
    var t := MemberText(m);
    assert nf[|nf| - 2] == t[|t| - 1];
    assert f[|f| - 2] == 's';
    if |m.discriminator| == 0 {
      assert t[|t| - 1] == '#';
    } else {
      assert t[|t| - 1] == m.discriminator[|m.discriminator| - 1];
    }
  }

  /** A counterexample to "the reply is the error text exactly when no row
      matched" for a member whose names imitate the other reply. */
  lemma RepliesCanCoincide()
    ensures NotFoundMessage(Member("x has **", "1** coins", "Error: Balance not found for user x"))
         == FoundMessage(Member("x has **", "1** coins", "Error: Balance not found for user x"), Cell("#1"))
  {
  }
}
