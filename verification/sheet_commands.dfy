/** `SheetCommands.get_balance` of bot/sheet_commands.py: a forward scan of
    the fetched sheet rows in which every matching row overwrites the
    balance found so far. */
module SheetCommands {
  import opened Wrappers
  import opened SheetScan

  /** The reply for `user` given the rows the sheet fetch returned: the
      not-found text when no row matches, otherwise the text for the last
      matching row's balance. */
  method GetBalance(user: Member, sheetData: seq<Row>) returns (reply: string)
    ensures NoMatch(sheetData, user) ==> reply == NotFoundMessage(user)
    ensures forall k :: IsLastMatch(sheetData, k, user) ==> reply == FoundMessage(user, RowBalance(sheetData[k]))
    ensures PlainDiscriminator(user) ==>
      (reply == NotFoundMessage(user) <==> NoMatch(sheetData, user))
  {
    var discriminator := "#" + user.discriminator;
    var balance: Option<Balance> := None;
    var i := 0;
    while i < |sheetData|
      invariant 0 <= i <= |sheetData|
      invariant balance == LastMatch(sheetData[..i], user)
    {
      var row := sheetData[i];
      assert sheetData[..i + 1] == sheetData[..i] + [row];
      LastMatchSnoc(sheetData[..i], row, user);
      if |row| >= 2 {
        var rowUser, rowDisc, rest := row[0], row[1], row[2..];
        if rowUser == user.name && rowDisc == discriminator {
          if |rest| > 0 {
            balance := Some(Cell(rest[0]));
          } else {
            balance := Some(Zero);
          }
        }
      }
      i := i + 1;
    }
    assert sheetData[..i] == sheetData;
    if balance.None? {
      reply := "Error: Balance not found for user " + MemberText(user) + "!";
    } else {
      reply := user.displayName + " has **" + BalanceText(balance.value) + "** coins!";
    }
    ReplyOfLastMatch(user, sheetData);
  }
}
