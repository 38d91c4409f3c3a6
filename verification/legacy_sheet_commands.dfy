/** The older `SheetCommands.get_balance` of bot/modules/sheet/commands.py:
    the same scan, written here as a left fold over the rows. It differs
    from the newer one only in printing instead of logging. */
module LegacySheetCommands {
  import opened Wrappers
  import opened SheetScan

  /** One pass of the loop from the top: a matching row replaces `found`. */
  function Scan(rows: seq<Row>, m: Member, found: Option<Balance>): (r: Option<Balance>)
    ensures NoMatch(rows, m) ==> r == found
    ensures forall k :: IsLastMatch(rows, k, m) ==> r == Some(RowBalance(rows[k]))
  {
    if |rows| == 0 then found
    else
      var rest := rows[1..];
      assert forall i :: 0 < i < |rows| ==> rows[i] == rest[i - 1];
      assert forall k :: IsLastMatch(rows, k, m) && k > 0 ==> IsLastMatch(rest, k - 1, m);
      Scan(rest, m, if RowMatches(rows[0], m) then Some(RowBalance(rows[0])) else found)
  }

  /** Reading the sheet from the top with overwriting gives the reference
      last match; `found` survives only when nothing matches. */
  lemma ScanIsLastMatch(rows: seq<Row>, m: Member, found: Option<Balance>)
    ensures Scan(rows, m, found) == if NoMatch(rows, m) then found else LastMatch(rows, m)
  {
    if !NoMatch(rows, m) {
      assert LastMatch(rows, m).Some?;
      var k :| IsLastMatch(rows, k, m) && LastMatch(rows, m).value == RowBalance(rows[k]);
    }
  }

  /** The reply for `user` given the fetched rows. */
  function GetBalance(user: Member, sheetData: seq<Row>): (reply: string)
    ensures NoMatch(sheetData, user) ==> reply == NotFoundMessage(user)
    ensures forall k :: IsLastMatch(sheetData, k, user) ==> reply == FoundMessage(user, RowBalance(sheetData[k]))
  {
    ScanIsLastMatch(sheetData, user, None);
    ReplyOfLastMatch(user, sheetData);
    Reply(user, Scan(sheetData, user, None))
  }

  /** The reply is the not-found text exactly when no row matches, for
      members whose discriminator does not end in `s`. */
  lemma NotFoundIffNoMatch(user: Member, sheetData: seq<Row>)
    requires PlainDiscriminator(user)
    ensures GetBalance(user, sheetData) == NotFoundMessage(user) <==> NoMatch(sheetData, user)
  {
    ScanIsLastMatch(sheetData, user, None);
    ReplyOfLastMatch(user, sheetData);
  }

  /** Rows of fewer than two cells never change the reply. */
  lemma ShortRowIgnored(user: Member, before: seq<Row>, row: Row, after: seq<Row>)
    requires |row| < 2
    ensures GetBalance(user, before + [row] + after) == GetBalance(user, before + after)
  {
    ScanIsLastMatch(before + [row] + after, user, None);
    ScanIsLastMatch(before + after, user, None);
    SheetScan.ShortRowIgnored(before, row, after, user);
  }
}
