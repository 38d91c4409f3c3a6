/** The `users` and `coin_gains` tables of bot/database.py as immutable row
    sequences, in table order, with the `Database` class's queries as pure
    functions over them.

    The Python methods as written do not run as their docstrings describe;
    the model follows the docstrings and records each deviation where it
    occurs:
    - `c.execute(sql, str(discord_id))` passes the text bare instead of in
      a tuple (line 122); sqlite3 binds a str as a sequence of one-character
      parameters, so any id of more than one character supplies too many
      bindings for the single `?` and raises. `c.execute(sql, user_tid)`
      passes a bare int, an unsupported parameter type, so the queries by
      internal id (lines 147 and 165) raise at line 110 on every call, and
      `get_coin_gains` passes its int `user_id` bare too (line 180). The
      INSERT at line 200 passes its two values as separate arguments.
    - `row := X is not None` binds `row` to the bool `X is not None`
      (Python's `:=` binds more loosely than `is not`), so where the query
      finds a row `row[0]` is `True[0]` and raises (lines 138 and 156);
      where it finds none, `row` is `False` and the method returns `None`.
      Line 195 has the same pattern and would return the bool instead of
      an id once line 138 is fixed.
    `GetUserTidAsWritten` models lines 122 and 138 of `get_user_tid` as
    written.
    - The INSERT of `register_user` gives no `id`, which the schema declares
      `INT NOT NULL PRIMARY KEY` (line 200); here the caller supplies a
      fresh id.
    - `get_coin_gains` selects a parenthesised row value and builds
      `CoinGain(*row)` from five of its six fields (lines 178-183); here it
      returns the whole matching rows. */
module Database {
  import opened Wrappers
  import Decimal

  /** A row of `users`: internal id, the Discord id as decimal text (the
      column is TEXT because Discord ids do not fit an SQLite INT), and the
      coin balance. */
  datatype UserRow = UserRow(tid: int, discordId: string, coins: int)

  /** A row of `coin_gains`. The date and the moderator flag are carried
      along without interpretation. */
  datatype CoinGain = CoinGain(
    tid: int,
    messageId: Option<int>,
    userTid: int,
    dateEntered: string,
    modApproved: bool,
    coins: int)

  /** The exceptions a query can raise. */
  datatype DbError =
    | NotAnInteger(text: string)  // `int(text)` on a stored id that is not decimal text
    | NotSubscriptable            // `row[0]` where `row` is a bool
    | WrongBindingCount(supplied: nat)  // a bare str parameter of the wrong length for one `?`

  /** The WHERE clause of a user query: by internal id or by Discord id text. */
  datatype Key = ByTid(tid: int) | ByDiscordText(text: string)

  predicate Matches(row: UserRow, key: Key) {
    match key
    case ByTid(t) => row.tid == t
    case ByDiscordText(s) => row.discordId == s
  }

  /** Row `k` is the first row of `users` that `key` selects: `fetchall()[0]`. */
  predicate IsFirstMatch(users: seq<UserRow>, k: int, key: Key) {
    && 0 <= k < |users|
    && Matches(users[k], key)
    && forall j :: 0 <= j < k ==> !Matches(users[j], key)
  }

  predicate Unregistered(users: seq<UserRow>, key: Key) {
    forall k :: 0 <= k < |users| ==> !Matches(users[k], key)
  }

  /** Position of the first row `key` selects. */
  function FirstMatch(users: seq<UserRow>, key: Key): (r: Option<nat>)
    ensures r.None? <==> Unregistered(users, key)
    ensures r.Some? ==> IsFirstMatch(users, r.value, key)
  {
    if |users| == 0 then None
    else if Matches(users[0], key) then Some(0)
    else
      match FirstMatch(users[1..], key)
      case None => None
      case Some(i) => Some(i + 1)
  }

  function Select(users: seq<UserRow>, key: Key): Option<UserRow> {
    match FirstMatch(users, key)
    case None => None
    case Some(i) => Some(users[i])
  }

  /** `_select_user_unchecked`: `None` when no row has internal id `tid`,
      otherwise the first such row. */
  function SelectUserUnchecked(users: seq<UserRow>, tid: int): (r: Option<UserRow>)
    ensures r.None? <==> forall k :: 0 <= k < |users| ==> users[k].tid != tid
    ensures r.Some? ==> exists k :: IsFirstMatch(users, k, ByTid(tid)) && r.value == users[k]
  {
    Select(users, ByTid(tid))
  }

  /** `_select_user_checked`: the same first-match selection by Discord id.
      Several matching rows are only logged, never an error. */
  function SelectUserChecked(users: seq<UserRow>, discordId: int): (r: Option<UserRow>)
    ensures r.None? <==> forall k :: 0 <= k < |users| ==> users[k].discordId != Decimal.Show(discordId)
    ensures r.Some? ==> exists k :: IsFirstMatch(users, k, ByDiscordText(Decimal.Show(discordId))) && r.value == users[k]
  {
    Select(users, ByDiscordText(Decimal.Show(discordId)))
  }

  /** A table in which the Discord id already has a row answers the same row
      after any further row is appended, a duplicate included: duplicates
      never turn the checked lookup into an error. */
  lemma {:induction false} DuplicateRowsKeepFirst(users: seq<UserRow>, discordId: int, extra: UserRow)
    requires SelectUserChecked(users, discordId).Some?
    ensures SelectUserChecked(users + [extra], discordId) == SelectUserChecked(users, discordId)
  {
    var key := ByDiscordText(Decimal.Show(discordId));
    var i := FirstMatch(users, key).value;
    assert IsFirstMatch(users + [extra], i, key) by {
      assert forall j :: 0 <= j <= i ==> (users + [extra])[j] == users[j];
    }
    FirstMatchUnique(users + [extra], key, i);
  }

  lemma FirstMatchUnique(users: seq<UserRow>, key: Key, k: int)
    requires IsFirstMatch(users, k, key)
    ensures FirstMatch(users, key) == Some(k)
  {
  }

  /** `get_user_tid`: the internal id of the first row holding `str(discordId)`. */
  function GetUserTid(users: seq<UserRow>, discordId: int): (r: Option<int>)
    ensures r.None? <==> Unregistered(users, ByDiscordText(Decimal.Show(discordId)))
    ensures r.Some? ==> exists k :: IsFirstMatch(users, k, ByDiscordText(Decimal.Show(discordId))) && users[k].tid == r.value
  {
    match SelectUserChecked(users, discordId)
    case None => None
    case Some(row) => Some(row.tid)
  }

  /** `get_user_tid` as written. The query binds the characters of
      `str(discord_id)` as its parameters, which fails unless the text is a
      single character; when it runs, `row` is bound to `... is not None`,
      a bool, and `row[0]` on `True` raises. It never returns an id. */
  function GetUserTidAsWritten(users: seq<UserRow>, discordId: int): (r: Result<Option<int>, DbError>)
    ensures r.Success? ==> r.value.None?
  {
    var text := Decimal.Show(discordId);
    if |text| != 1 then Failure(WrongBindingCount(|text|))
    else
      var row := SelectUserChecked(users, discordId).Some?;
      if row then Failure(NotSubscriptable) else Success(None)
  }

  /** As written, `get_user_tid` raises for every id outside 0..9, raises
      for every registered id, and agrees with the docstring only on an
      unregistered one-digit id. */
  lemma GetUserTidAsWrittenFailures(users: seq<UserRow>, discordId: int)
    ensures GetUserTidAsWritten(users, discordId).Failure? <==>
      !(0 <= discordId < 10) || GetUserTid(users, discordId).Some?
    ensures GetUserTidAsWritten(users, discordId) == Failure(NotSubscriptable) <==>
      0 <= discordId < 10 && GetUserTid(users, discordId).Some?
    ensures GetUserTidAsWritten(users, discordId).Success? ==>
      GetUserTidAsWritten(users, discordId).value == GetUserTid(users, discordId)
  {
    var text := Decimal.Show(discordId);
    if discordId < 0 {
      assert |text| >= 2;
    }
  }

  /** A one-row table on which the two readings differ, with a one-digit id
      so that the query itself runs. */
  lemma GetUserTidAsWrittenWitness()
    ensures GetUserTid([UserRow(1, "7", 0)], 7) == Some(1)
    ensures GetUserTidAsWritten([UserRow(1, "7", 0)], 7) == Failure(NotSubscriptable)
  {
  }

  /** A two-digit id fails at the query even when it is not registered. */
  lemma GetUserTidAsWrittenBindingWitness()
    ensures GetUserTid([], 42) == None
    ensures GetUserTidAsWritten([], 42) == Failure(WrongBindingCount(2))
  {
  }

  /** `get_user_discord_id`: `int(...)` of the id text in the first row with
      internal id `tid`; a stored text that is not an integer raises. */
  function GetUserDiscordId(users: seq<UserRow>, tid: int): (r: Result<Option<int>, DbError>)
    ensures r == Success(None) <==> Unregistered(users, ByTid(tid))
    ensures r.Success? && r.value.Some? ==>
      exists k :: IsFirstMatch(users, k, ByTid(tid)) && Decimal.Parse(users[k].discordId) == Some(r.value.value)
    ensures r.Failure? ==>
      exists k :: IsFirstMatch(users, k, ByTid(tid)) && !Decimal.IsIntLiteral(users[k].discordId)
  {
    match SelectUserUnchecked(users, tid)
    case None => Success(None)
    case Some(row) =>
      match Decimal.Parse(row.discordId)
      case Some(v) => Success(Some(v))
      case None => Failure(NotAnInteger(row.discordId))
  }

  /** `get_balance_discord`: the coins of the Discord user's first row. */
  function GetBalanceDiscord(users: seq<UserRow>, discordId: int): (r: Option<int>)
    ensures r.None? <==> Unregistered(users, ByDiscordText(Decimal.Show(discordId)))
    ensures r.Some? ==> exists k :: IsFirstMatch(users, k, ByDiscordText(Decimal.Show(discordId))) && users[k].coins == r.value
  {
    match SelectUserChecked(users, discordId)
    case None => None
    case Some(row) => Some(row.coins)
  }

  /** `get_balance`: the coins of the first row with internal id `tid`. */
  function GetBalance(users: seq<UserRow>, tid: int): (r: Option<int>)
    ensures r.None? <==> Unregistered(users, ByTid(tid))
    ensures r.Some? ==> exists k :: IsFirstMatch(users, k, ByTid(tid)) && users[k].coins == r.value
  {
    match SelectUserUnchecked(users, tid)
    case None => None
    case Some(row) => Some(row.coins)
  }

  /** The `coin_gains` rows whose `user_id` is `tid`, in table order. */
  function GainsOf(gains: seq<CoinGain>, tid: int): (r: seq<CoinGain>)
    ensures |r| <= |gains|
    ensures forall g :: g in r <==> g in gains && g.userTid == tid
  {
    if |gains| == 0 then []
    else if gains[0].userTid == tid then [gains[0]] + GainsOf(gains[1..], tid)
    else GainsOf(gains[1..], tid)
  }

  /** The selection keeps table order: it distributes over concatenation. */
  lemma {:induction false} GainsOfConcat(a: seq<CoinGain>, b: seq<CoinGain>, tid: int)
    ensures GainsOf(a + b, tid) == GainsOf(a, tid) + GainsOf(b, tid)
  {
    if |a| > 0 {
      assert (a + b)[1..] == a[1..] + b;
      GainsOfConcat(a[1..], b, tid);
    } else {
      assert a + b == b;
    }
  }

  /** `get_coin_gains`: nothing for an unregistered user, otherwise that
      user's gains in table order. */
  function GetCoinGains(users: seq<UserRow>, gains: seq<CoinGain>, discordId: int): (r: seq<CoinGain>)
    ensures GetUserTid(users, discordId).None? ==> r == []
    ensures GetUserTid(users, discordId).Some? ==>
      forall g :: g in r <==> g in gains && g.userTid == GetUserTid(users, discordId).value
  {
    match GetUserTid(users, discordId)
    case None => []
    case Some(t) => GainsOf(gains, t)
  }

  /** The table after `register_user` and the value it returns. */
  datatype Registration = Registration(users: seq<UserRow>, tid: Option<int>)

  predicate TidUnused(users: seq<UserRow>, tid: int) {
    forall k :: 0 <= k < |users| ==> users[k].tid != tid
  }

  /** `register_user`: an already registered Discord id leaves the table
      alone and returns its id; a new one gets a row with 0 coins, and the
      id is then looked up again. `freshTid` stands for the id the database
      assigns to a new row; it is only needed, and only has to be unused,
      when a row is added. */
  function RegisterUser(users: seq<UserRow>, discordId: int, freshTid: int): (r: Registration)
    requires GetUserTid(users, discordId).None? ==> TidUnused(users, freshTid)
    ensures GetUserTid(users, discordId).Some? ==> r.users == users && r.tid == GetUserTid(users, discordId)
    ensures GetUserTid(users, discordId).None? ==>
      r.users == users + [UserRow(freshTid, Decimal.Show(discordId), 0)] && r.tid == Some(freshTid)
  {
    match GetUserTid(users, discordId)
    case Some(t) => Registration(users, Some(t))
    case None =>
      var users' := users + [UserRow(freshTid, Decimal.Show(discordId), 0)];
      assert IsFirstMatch(users', |users|, ByDiscordText(Decimal.Show(discordId)));
      FirstMatchUnique(users', ByDiscordText(Decimal.Show(discordId)), |users|);
      Registration(users', GetUserTid(users', discordId))
  }

  /** The id `register_user` returns is what later `get_user_tid` calls
      return, and the user's balance is readable. */
  lemma RegisterThenLookup(users: seq<UserRow>, discordId: int, freshTid: int)
    requires GetUserTid(users, discordId).None? ==> TidUnused(users, freshTid)
    ensures RegisterUser(users, discordId, freshTid).tid.Some?
    ensures GetUserTid(RegisterUser(users, discordId, freshTid).users, discordId) == RegisterUser(users, discordId, freshTid).tid
    ensures GetBalanceDiscord(RegisterUser(users, discordId, freshTid).users, discordId).Some?
  {
  }

  /** A new user starts with 0 coins, by Discord id and by internal id. */
  lemma RegisterNewUserHasZeroCoins(users: seq<UserRow>, discordId: int, freshTid: int)
    requires TidUnused(users, freshTid)
    requires GetUserTid(users, discordId).None?
    ensures GetBalanceDiscord(RegisterUser(users, discordId, freshTid).users, discordId) == Some(0)
    ensures GetBalance(RegisterUser(users, discordId, freshTid).users, freshTid) == Some(0)
  {
  }

  /** Registering twice is registering once: the second call adds no row
      and returns the same id, whatever id it would have assigned. */
  lemma RegisterIdempotent(users: seq<UserRow>, discordId: int, freshTid: int, freshTid2: int)
    requires GetUserTid(users, discordId).None? ==> TidUnused(users, freshTid)
    ensures RegisterUser(RegisterUser(users, discordId, freshTid).users, discordId, freshTid2)
         == RegisterUser(users, discordId, freshTid)
  {
  }

  /** Registering one Discord id changes no other Discord id's lookups. */
  lemma RegisterFrame(users: seq<UserRow>, discordId: int, freshTid: int, other: int)
    requires GetUserTid(users, discordId).None? ==> TidUnused(users, freshTid)
    requires other != discordId
    ensures GetUserTid(RegisterUser(users, discordId, freshTid).users, other) == GetUserTid(users, other)
    ensures GetBalanceDiscord(RegisterUser(users, discordId, freshTid).users, other) == GetBalanceDiscord(users, other)
  {
    var users' := RegisterUser(users, discordId, freshTid).users;
    if users' != users {
      var key := ByDiscordText(Decimal.Show(other));
      assert !Matches(users'[|users|], key) by {
        if Decimal.Show(discordId) == Decimal.Show(other) {
          Decimal.ShowInjective(discordId, other);
        }
      }
      match FirstMatch(users, key)
      case None =>
        assert Unregistered(users', key);
      case Some(i) =>
        assert IsFirstMatch(users', i, key);
        FirstMatchUnique(users', key, i);
    }
  }

  /** The schema's primary key: no two rows share an internal id. */
  predicate TidsUnique(users: seq<UserRow>) {
    forall i, j :: 0 <= i < j < |users| ==> users[i].tid != users[j].tid
  }

  /** The state `register_user` keeps a table in when it is the only
      writer: internal ids are a primary key (the schema's constraint), each
      Discord id has at most one row (only the check before the insert
      keeps this; `user_id` has no UNIQUE constraint, and the checked lookup
      tolerates duplicates), and every stored id text reads back as an
      integer. */
  predicate Valid(users: seq<UserRow>) {
    && TidsUnique(users)
    && (forall i, j :: 0 <= i < j < |users| ==> users[i].discordId != users[j].discordId)
    && (forall i :: 0 <= i < |users| ==> Decimal.IsIntLiteral(users[i].discordId))
  }

  lemma RegisterPreservesValid(users: seq<UserRow>, discordId: int, freshTid: int)
    requires Valid(users)
    requires GetUserTid(users, discordId).None? ==> TidUnused(users, freshTid)
    ensures Valid(RegisterUser(users, discordId, freshTid).users)
  {
  }

  /** Registration keeps the primary key, whatever else the table holds. */
  lemma RegisterPreservesTidsUnique(users: seq<UserRow>, discordId: int, freshTid: int)
    requires TidsUnique(users)
    requires GetUserTid(users, discordId).None? ==> TidUnused(users, freshTid)
    ensures TidsUnique(RegisterUser(users, discordId, freshTid).users)
  {
  }

  /** Round trip: the Discord id stored for the internal id that
      `get_user_tid(d)` returns reads back as `d`. Only the primary key is
      needed; rows duplicating a Discord id do not break it. */
  lemma DiscordIdRoundTrip(users: seq<UserRow>, discordId: int)
    requires TidsUnique(users)
    requires GetUserTid(users, discordId).Some?
    ensures GetUserDiscordId(users, GetUserTid(users, discordId).value) == Success(Some(discordId))
  {
    var key := ByDiscordText(Decimal.Show(discordId));
    var k := FirstMatch(users, key).value;
    var tid := users[k].tid;
    assert IsFirstMatch(users, k, ByTid(tid));
    FirstMatchUnique(users, ByTid(tid), k);
    Decimal.ParseShow(discordId);
  }

  /** A table with two rows for Discord id 7 and distinct internal ids:
      the round trip still holds. */
  lemma DiscordIdRoundTripWithDuplicates()
    ensures !Valid([UserRow(1, "7", 0), UserRow(2, "7", 5)])
    ensures GetUserTid([UserRow(1, "7", 0), UserRow(2, "7", 5)], 7) == Some(1)
    ensures GetUserDiscordId([UserRow(1, "7", 0), UserRow(2, "7", 5)], 1) == Success(Some(7))
  {
    var users := [UserRow(1, "7", 0), UserRow(2, "7", 5)];
    assert users[0].discordId == users[1].discordId;
    DiscordIdRoundTrip(users, 7);
  }

  /** On a valid table `get_user_discord_id` never raises. */
  lemma GetUserDiscordIdTotalOnValid(users: seq<UserRow>, tid: int)
    requires Valid(users)
    ensures GetUserDiscordId(users, tid).Success?
  {
  }
}
