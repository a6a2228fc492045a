/** The user table: an ordered list of rows with an index by user name, kept in a file. */
module ServerConfig {
  import opened Bytes
  import opened SqlParse

  const KEY_SIZE: nat := 32

  /** Authenticated encryption under a key, with a nonce chosen for each call. */
  datatype Cipher = Cipher(seal: (string, nat, string) -> string, open: (string, string) -> Option<string>) {
    ghost predicate Inverse() {
      forall key, nonce, data :: open(key, seal(key, nonce, data)) == Some(data)
    }

    lemma Opens(key: string, nonce: nat, data: string)
      requires Inverse()
      ensures open(key, seal(key, nonce, data)) == Some(data)
    {
    }
  }

  datatype Table = Table(servers: seq<Server>, key: string)

  /** The file: missing, not parsed as a table, or a table. */
  datatype Store = Missing | Unreadable | Stored(table: Table)

  datatype TableError =
    | Reshape(error: ReshapeError)
    | AlreadyExists(user: string)
    | NoUpdateData
    | NotFound(user: string)
    | NotFoundData
    | CipherFailed
    | StoreFailed

  // The index

  function IndexOf(ss: seq<Server>): map<string, nat> {
    if ss == [] then map[] else IndexOf(ss[..|ss| - 1])[ss[|ss| - 1].user := |ss| - 1]
  }

  /** Each name leads to the last row that has it. */
  lemma {:induction false} IndexIsLast(ss: seq<Server>)
    ensures forall u :: u in IndexOf(ss) ==> IndexOf(ss)[u] < |ss| && ss[IndexOf(ss)[u]].user == u
    ensures forall i :: 0 <= i < |ss| ==> ss[i].user in IndexOf(ss) && i <= IndexOf(ss)[ss[i].user]
  {
    if ss != [] {
      var rest := ss[..|ss| - 1];
      IndexIsLast(rest);
      assert forall i :: 0 <= i < |rest| ==> rest[i] == ss[i];
    }
  }

  lemma IndexOfMore(ss: seq<Server>, s: Server)
    ensures IndexOf(ss + [s]) == IndexOf(ss)[s.user := |ss|]
  {
    assert (ss + [s])[..|ss|] == ss;
  }

  predicate Unique(ss: seq<Server>) {
    forall i, j :: 0 <= i < j < |ss| ==> ss[i].user != ss[j].user
  }

  /** Linear search from the front. */
  function Search(ss: seq<Server>, user: string): (r: Option<nat>)
    ensures r.Some? ==> r.value < |ss| && ss[r.value].user == user
    ensures forall i :: 0 <= i < |ss| && (r.Some? ==> i < r.value) ==> ss[i].user != user
  {
    if ss == [] then None
    else if ss[0].user == user then Some(0)
    else match Search(ss[1..], user) case None => None case Some(i) => Some(i + 1)
  }

  /** The index agrees with linear search on every name exactly when no name is used twice. */
  lemma IndexIsSearchIff(ss: seq<Server>)
    ensures (forall u :: Search(ss, u) == if u in IndexOf(ss) then Some(IndexOf(ss)[u]) else None) <==> Unique(ss)
  {
    IndexIsLast(ss);
    hide IndexOf, Search;
    if Unique(ss) {
      forall u
        ensures Search(ss, u) == if u in IndexOf(ss) then Some(IndexOf(ss)[u]) else None
      {
      }
    } else {
      var i, j :| 0 <= i < j < |ss| && ss[i].user == ss[j].user;
      var u := ss[i].user;
      assert Search(ss, u).value <= i < j <= IndexOf(ss)[u];
    }
  }

  lemma IndexIsExact(ss: seq<Server>, i: nat)
    requires Unique(ss) && i < |ss|
    ensures ss[i].user in IndexOf(ss) && IndexOf(ss)[ss[i].user] == i
  {
    IndexIsLast(ss);
  }

  predicate HasUser(ss: seq<Server>, user: string) {
    exists i :: 0 <= i < |ss| && ss[i].user == user
  }

  // What each statement does to a table

  function PickedRows(t: Table, q: Query): seq<Server> {
    Selected(q.whereColumns, q.whereValues, t.servers)
  }

  predicate WhereError(q: Query) {
    q.whereColumns != [] && q.whereOp != EQ
  }

  ghost predicate EncryptedRow(c: Cipher, key: string, plain: Server, row: Server) {
    row.user == plain.user && c.open(key, row.password) == Some(plain.password)
  }

  predicate NewUsers(ss: seq<Server>, rows: seq<Server>) {
    Unique(rows) && forall i :: 0 <= i < |rows| ==> !HasUser(ss, rows[i].user)
  }

  function InsertRows(q: Query): Result<seq<Server>> {
    Rows(Defaulted(q.columns), q.values)
  }

  predicate CanInsert(t: Table, q: Query) {
    InsertRows(q).Ok? && NewUsers(t.servers, InsertRows(q).value)
  }

  /** `ss`, followed by the rows in order, encrypted. */
  ghost predicate Extended(c: Cipher, key: string, ss: seq<Server>, rows: seq<Server>, after: seq<Server>) {
    && |after| == |ss| + |rows|
    && (forall i :: 0 <= i < |ss| ==> after[i] == ss[i])
    && forall i :: 0 <= i < |rows| ==> EncryptedRow(c, key, rows[i], after[|ss| + i])
  }

  ghost predicate Inserted(c: Cipher, t: Table, q: Query, t': Table) {
    CanInsert(t, q) && t'.key == t.key && Extended(c, t.key, t.servers, InsertRows(q).value, t'.servers)
  }

  function UpdatedRow(q: Query, s: Server): Result<Server> {
    Fill(Defaulted(q.columns), q.values, s)
  }

  predicate CanUpdate(t: Table, q: Query) {
    && !WhereError(q) && PickedRows(t, q) != []
    && |Defaulted(q.columns)| <= |q.values| && AllKnown(Defaulted(q.columns))
  }

  /** Row by row: the selected rows with the columns set and the password encrypted, the others as they were. */
  ghost predicate Updated(c: Cipher, t: Table, q: Query, t': Table) {
    && CanUpdate(t, q) && t'.key == t.key && |t'.servers| == |t.servers|
    && forall i :: 0 <= i < |t.servers| ==>
         if Picks(q.whereColumns, q.whereValues, t.servers[i])
         then UpdatedRow(q, t.servers[i]).Ok?
              && EncryptedRow(c, t.key, UpdatedRow(q, t.servers[i]).value, t'.servers[i])
         else t'.servers[i] == t.servers[i]
  }

  predicate CanDelete(t: Table, q: Query) {
    !WhereError(q) && PickedRows(t, q) != []
  }

  /** The rows whose name none of `rows` has. */
  function Survivors(ss: seq<Server>, rows: seq<Server>): seq<Server> {
    Filter((s: Server) => !HasUser(rows, s.user), ss)
  }

  ghost predicate Deleted(t: Table, q: Query, t': Table) {
    CanDelete(t, q) && t'.key == t.key && t'.servers == Survivors(t.servers, PickedRows(t, q))
  }

  // Lemmas on rows

  lemma {:induction false} FilterMembers(f: Server -> bool, ss: seq<Server>)
    ensures forall s :: s in Filter(f, ss) <==> s in ss && f(s)
    ensures |Filter(f, ss)| <= |ss|
  {
    if ss != [] {
      FilterMembers(f, ss[..|ss| - 1]);
      assert ss == ss[..|ss| - 1] + [ss[|ss| - 1]];
    }
  }

  /** With unique names, the names of the selected rows stand for exactly these rows. */
  lemma SelectedByName(f: Server -> bool, ss: seq<Server>, i: nat)
    requires Unique(ss) && i < |ss|
    ensures HasUser(Filter(f, ss), ss[i].user) <==> f(ss[i])
  {
    FilterMembers(f, ss);
    var rows := Filter(f, ss);
    if HasUser(rows, ss[i].user) {
      var j :| 0 <= j < |rows| && rows[j].user == ss[i].user;
      assert rows[j] in rows;
      var k :| 0 <= k < |ss| && ss[k] == rows[j];
      assert k == i;
    }
    if f(ss[i]) {
      assert ss[i] in rows;
      var j :| 0 <= j < |rows| && rows[j] == ss[i];
    }
  }

  lemma FoundIn(f: Server -> bool, ss: seq<Server>, k: nat) returns (i: nat)
    requires k < |Filter(f, ss)|
    ensures i < |ss| && ss[i] == Filter(f, ss)[k] && f(ss[i])
  {
    FilterMembers(f, ss);
    assert Filter(f, ss)[k] in ss;
    i :| 0 <= i < |ss| && ss[i] == Filter(f, ss)[k];
  }

  lemma {:induction false} FilterUnique(f: Server -> bool, ss: seq<Server>)
    requires Unique(ss)
    ensures Unique(Filter(f, ss))
  {
    if ss != [] {
      var rest := ss[..|ss| - 1];
      FilterUnique(f, rest);
      FilterMembers(f, rest);
      assert forall s :: s in rest ==> s.user != ss[|ss| - 1].user;
    }
  }

  /** Exactly the selected rows go when no other row has the name of one of them. */
  lemma DeletesOnlySelectedIff(t: Table, q: Query)
    ensures Survivors(t.servers, PickedRows(t, q))
         == Filter((s: Server) => !Picks(q.whereColumns, q.whereValues, s), t.servers)
       <==> forall s :: s in t.servers && HasUser(PickedRows(t, q), s.user) ==> Picks(q.whereColumns, q.whereValues, s)
  {
    var ss, rows := t.servers, PickedRows(t, q);
    var f := (s: Server) => Picks(q.whereColumns, q.whereValues, s);
    var g := (s: Server) => !Picks(q.whereColumns, q.whereValues, s);
    var h := (s: Server) => !HasUser(rows, s.user);
    FilterMembers(f, ss);
    FilterMembers(g, ss);
    FilterMembers(h, ss);
    forall s | s in ss && f(s)
      ensures HasUser(rows, s.user)
    {
      assert s in rows;
      var j :| 0 <= j < |rows| && rows[j] == s;
    }
    if forall s :: s in ss && HasUser(rows, s.user) ==> f(s) {
      FilterSameOn(g, h, ss);
    }
    if exists s :: s in ss && HasUser(rows, s.user) && !f(s) {
      var s :| s in ss && HasUser(rows, s.user) && !f(s);
      assert s in Filter(g, ss) && s !in Filter(h, ss);
    }
  }

  lemma {:induction false} FilterSameOn(f: Server -> bool, g: Server -> bool, ss: seq<Server>)
    requires forall s :: s in ss ==> f(s) == g(s)
    ensures Filter(f, ss) == Filter(g, ss)
  {
    if ss != [] {
      FilterSameOn(f, g, ss[..|ss| - 1]);
      assert ss[|ss| - 1] in ss;
    }
  }

  // The source's objects

  class Config {
    var servers: array<Server>
    var key: string

    constructor (servers: array<Server>, key: string)
      ensures this.servers == servers && this.key == key
    {
      this.servers, this.key := servers, key;
    }

    ghost function View(): Table
      reads this, servers
    {
      Table(servers[..], key)
    }
  }

  /** append, always to a new array. */
  method Append(a: array<Server>, s: Server) returns (r: array<Server>)
    ensures fresh(r) && r[..] == a[..] + [s]
  {
    r := new Server[a.Length + 1](i requires 0 <= i <= a.Length reads a => if i < a.Length then a[i] else s);
    assert r[..a.Length] == a[..] && r[..] == r[..a.Length] + [r[a.Length]];
  }

  class Manager {
    const cipher: Cipher
    /** Encryption never fails. */
    const cipherWorks: bool
    /** Storing the table never fails. */
    const storeWorks: bool
    var serverIndex: map<string, nat>
    var file: Store

    constructor (cipher: Cipher, cipherWorks: bool, storeWorks: bool)
      ensures this.cipher == cipher && this.cipherWorks == cipherWorks && this.storeWorks == storeWorks
      ensures serverIndex == map[] && file == Missing
    {
      this.cipher, this.cipherWorks, this.storeWorks := cipher, cipherWorks, storeWorks;
      serverIndex, file := map[], Missing;
    }

    method Encrypt(key: string, data: string) returns (r: Option<string>)
      requires cipher.Inverse()
      ensures r.Some? ==> cipher.open(key, r.value) == Some(data)
      ensures cipherWorks ==> r.Some?
    {
      var works: bool, nonce: nat := *, *;
      r := if works || cipherWorks then Some(cipher.seal(key, nonce, data)) else None;
    }

    method MakeIndex(conf: Config)
      modifies this`serverIndex
      ensures serverIndex == IndexOf(conf.servers[..])
    {
      serverIndex := map[];
      var i := 0;
      while i < conf.servers.Length
        invariant 0 <= i <= conf.servers.Length && serverIndex == IndexOf(conf.servers[..i])
      {
        assert conf.servers[..i + 1][..i] == conf.servers[..i];
        serverIndex := serverIndex[conf.servers[i].user := i];
        i := i + 1;
      }
      assert conf.servers[..i] == conf.servers[..];
    }

    /** What is loaded: the stored table, or one "admin" row when there is none to be read; never with an empty key. */
    ghost predicate Loaded(stored: Store, t: Table) {
      && t.key != ""
      && match stored
         case Stored(f) => t.servers == f.servers && (f.key != "" ==> t.key == f.key)
         case _ => |t.servers| == 1 && EncryptedRow(cipher, t.key, Server("admin", "pass"), t.servers[0])
    }

    /** 32 random bytes. */
    method GenerateKey() returns (key: string)
      ensures |key| == KEY_SIZE
    {
      key :| |key| == KEY_SIZE by {
        assert |seq<char>(KEY_SIZE, _ => 'k')| == KEY_SIZE;
      }
    }

    /** The run of statements on an empty store starts from one user; on a stored table with a key, from that table. */
    lemma LoadedIs(stored: Store, t: Table)
      requires Loaded(stored, t)
      ensures !stored.Stored? ==> Unique(t.servers) && Represents(cipher, t, map["admin" := "pass"])
      ensures stored.Stored? && stored.table.key != "" ==> t == stored.table
    {
      if !stored.Stored? {
        assert t.servers[0].user == "admin";
        assert RowUsers(t.servers) == {"admin"};
      }
    }

    method GetConfig() returns (conf: Config)
      requires cipher.Inverse()
      modifies this`serverIndex
      ensures fresh(conf) && fresh(conf.servers)
      ensures Loaded(file, conf.View()) && serverIndex == IndexOf(conf.servers[..])
    {
      var nonce: nat := *;
      var key := GenerateKey();
      var servers;
      match file {
        case Stored(f) =>
          servers := new Server[|f.servers|](i requires 0 <= i < |f.servers| => f.servers[i]);
          assert servers[..] == f.servers;
          if f.key != "" {
            key := f.key;
          }
        case _ =>
          var password := cipher.seal(key, nonce, "pass");
          servers := new Server[1](_ => Server("admin", password));
          cipher.Opens(key, nonce, "pass");
      }
      conf := new Config(servers, key);
      MakeIndex(conf);
    }

    /** Storing may fail before the file is opened, or leave a part of the table in it, or all of it but for the end. */
    method PutConfig(conf: Config) returns (ok: bool)
      modifies this`file
      ensures ok ==> file == Stored(conf.View())
      ensures file == old(file) || file == Unreadable || file == Stored(conf.View())
      ensures storeWorks ==> ok
    {
      ok := *;
      ok := ok || storeWorks;
      var opens: bool, whole: bool := *, *;
      if ok || whole {
        file := Stored(Table(conf.servers[..], conf.key));
      } else if opens {
        file := Unreadable;
      }
    }

    /** Adds one row behind the rows `done` that have been added to `ss`. */
    method InsertRow(server: Server, conf: Config, ghost ss: seq<Server>, ghost done: seq<Server>)
      returns (error: Option<TableError>)
      requires cipher.Inverse() && serverIndex == IndexOf(conf.servers[..])
      requires Extended(cipher, conf.key, ss, done, conf.servers[..])
      modifies this`serverIndex, conf
      ensures serverIndex == IndexOf(conf.servers[..]) && conf.key == old(conf.key)
      ensures conf.servers == old(conf.servers) || fresh(conf.servers)
      ensures error == None ==> Extended(cipher, conf.key, ss, done + [server], conf.servers[..])
      ensures error != Some(CipherFailed) ==>
                error == if HasUser(ss, server.user) || HasUser(done, server.user)
                         then Some(AlreadyExists(server.user)) else None
      ensures cipherWorks ==> error != Some(CipherFailed)
    {
      error := None;
      ghost var before := conf.servers[..];
      ExtendedUsers(cipher, conf.key, ss, done, before, server.user);
      hide Extended, HasUser, IndexOf;
      if server.user in serverIndex {
        return Some(AlreadyExists(server.user));
      }
      var password := Encrypt(conf.key, server.password);
      if password == None {
        return Some(CipherFailed);
      }
      var row := server.(password := password.value);
      conf.servers := Append(conf.servers, row);
      IndexOfMore(before, row);
      serverIndex := serverIndex[server.user := conf.servers.Length - 1];
      ExtendedMore(cipher, conf.key, ss, done, before, server, row);
    }

    /**
     * All rows are added in order and encrypted, unless one has a name that is taken by then, or encryption fails.
     * The index stays exact throughout.
     */
    method InsertInto(p: ParsedQuery, conf: Config) returns (n: nat, error: Option<TableError>)
      requires cipher.Inverse() && serverIndex == IndexOf(conf.servers[..])
      modifies this`serverIndex, conf, p`columns
      ensures serverIndex == IndexOf(conf.servers[..])
      ensures error == None ==> Inserted(cipher, old(conf.View()), old(p.View()), conf.View())
      ensures error == None ==> n == |InsertRows(old(p.View())).value|
      ensures error.Some? ==> error.value == CipherFailed || !CanInsert(old(conf.View()), old(p.View()))
      ensures InsertRows(old(p.View())).Err? ==> error == Some(Reshape(InsertRows(old(p.View())).error))
      ensures error != Some(StoreFailed) && (cipherWorks ==> error != Some(CipherFailed))
    {
      n, error := 0, None;
      ghost var ss, key, t, q := conf.servers[..], conf.key, conf.View(), p.View();
      hide Extended, NewUsers, HasUser, Rows, IndexOf, EncryptedRow, Unique, Defaulted;
      var servers, e := p.ColumnsToConfig();
      if e.Some? {
        error := Some(Reshape(e.value));
        return;
      }
      assert InsertRows(q) == Ok(servers);
      var k := 0;
      NothingInserted(cipher, key, ss, servers);
      while k < |servers|
        invariant 0 <= k <= |servers| && n == k && conf.key == key && error == None
        invariant conf.servers == old(conf.servers) || fresh(conf.servers)
        invariant serverIndex == IndexOf(conf.servers[..])
        invariant Extended(cipher, key, ss, servers[..k], conf.servers[..]) && NewUsers(ss, servers[..k])
      {
        error := InsertRow(servers[k], conf, ss, servers[..k]);
        NewUsersMore(ss, servers, k);
        if error.Some? {
          return;
        }
        n, k := n + 1, k + 1;
      }
      assert servers[..k] == servers;
    }

    method Insert(p: ParsedQuery) returns (n: nat, error: Option<TableError>, ghost loaded: Table)
      requires cipher.Inverse()
      modifies this`serverIndex, this`file, p`columns
      ensures Loaded(old(file), loaded)
      ensures error == None ==>
                && file.Stored? && Inserted(cipher, loaded, old(p.View()), file.table)
                && n == |InsertRows(old(p.View())).value|
      ensures error.Some? && error.value != StoreFailed ==> file == old(file)
      ensures error == Some(StoreFailed) ==>
                || file == old(file) || file == Unreadable
                || (file.Stored? && Inserted(cipher, loaded, old(p.View()), file.table))
      ensures error.Some? && error.value != StoreFailed && error.value != CipherFailed ==>
                !CanInsert(loaded, old(p.View()))
      ensures (storeWorks ==> error != Some(StoreFailed)) && (cipherWorks ==> error != Some(CipherFailed))
    {
      hide Inserted, CanInsert, Loaded;
      var conf := GetConfig();
      loaded := conf.View();
      n, error := InsertInto(p, conf);
      if error == None {
        var ok := PutConfig(conf);
        error := if ok then None else Some(StoreFailed);
      }
    }

    /** One selected row: found through the index, changed, and put back in the table. */
    method UpdateRow(p: ParsedQuery, conf: Config, u: Server) returns (error: Option<TableError>, ghost row: Server)
      requires cipher.Inverse() && forall name :: name in serverIndex ==> serverIndex[name] < conf.servers.Length
      modifies conf.servers, p`columns
      ensures Defaulted(p.columns) == Defaulted(old(p.columns))
      ensures
        match error
        case None =>
          && u.user in serverIndex && UpdatedRow(old(p.View()), u).Ok?
          && EncryptedRow(cipher, conf.key, UpdatedRow(old(p.View()), u).value, row)
          && conf.servers[..] == old(conf.servers[..])[serverIndex[u.user] := row]
        case Some(NotFound(name)) => u.user !in serverIndex && conf.servers[..] == old(conf.servers[..])
        case Some(Reshape(e)) => UpdatedRow(old(p.View()), u) == Err(e) && conf.servers[..] == old(conf.servers[..])
        case Some(e) => e == CipherFailed && !cipherWorks && conf.servers[..] == old(conf.servers[..])
    {
      error, row := None, u;
      if u.user !in serverIndex {
        error := Some(NotFound(u.user));
        return;
      }
      var i := serverIndex[u.user];
      var s, e := p.UpdateColumns(u);
      if e.Some? {
        error := Some(Reshape(e.value));
        return;
      }
      var password := Encrypt(conf.key, s.password);
      if password == None {
        error := Some(CipherFailed);
        return;
      }
      row := s.(password := password.value);
      conf.servers[i] := s.(password := password.value);
    }

    /**
     * Each selected row is updated from what it was before, into the last row of its name, even when the rows gone
     * over are the very array that is overwritten; when no selected row has a later row of its name this is the
     * pointwise update. Looking a row up fails only when all rows are renamed to a name that is not in the table, and
     * there are rows of the same name.
     */
    method UpdateTable(p: ParsedQuery, conf: Config) returns (n: nat, error: Option<TableError>)
      requires cipher.Inverse() && serverIndex == IndexOf(conf.servers[..])
      modifies conf.servers, p`columns
      ensures UpdateOutcome(cipher, old(conf.View()), old(p.View()), n, error, conf.View())
      ensures Unshadowed(old(conf.View()), old(p.View())) && error == None ==>
                Updated(cipher, old(conf.View()), old(p.View()), conf.View())
      ensures ShadowedKept(old(conf.servers[..]), conf.servers[..])
      ensures error != Some(StoreFailed) && (cipherWorks ==> error != Some(CipherFailed))
    {
      n, error := 0, None;
      ghost var t, q := conf.View(), p.View();
      hide EncryptedRow, Fill, Selected, Unique, HasUser, IndexOf, Defaulted, UpdateOutcome, WrittenSoFar, ShadowedKept;
      hide Midway, Unshadowed, Updated, Picks;
      ShadowedKeptStart(t.servers);
      var rows, e := p.WhereColumnsToConfig(conf.servers);
      if e.Some? {
        error := Some(Reshape(e.value));
        NothingToUpdate(cipher, t, q, error.value);
        return;
      }
      if rows.Length == 0 {
        error := Some(NoUpdateData);
        NothingToUpdate(cipher, t, q, error.value);
        return;
      }
      BeforeFirst(p, conf, rows);
      n, error := UpdateAll(p, conf, rows, t, q, rows[..]);
      if error == None {
        OutcomeIsUpdated(cipher, t, q, n, conf.View());
      }
    }

    lemma BeforeFirst(p: ParsedQuery, conf: Config, rows: array<Server>)
      requires rows[..] == PickedRows(conf.View(), p.View()) && (rows == conf.servers <==> p.whereColumns == [])
      ensures Midway(p, conf, rows, 0, conf.View(), p.View(), rows[..])
    {
      var t, q := conf.View(), p.View();
      NothingWritten(cipher, t, q, rows[..]);
      hide WrittenSoFar, SameUpdate, PickedRows, Traceable, RenamedSoFar;
      assert forall j :: 0 <= j < rows.Length ==> rows[..][j] == rows[j];
    }

    /** The loop over the selected rows. */
    method UpdateAll(p: ParsedQuery, conf: Config, rows: array<Server>, ghost t: Table, ghost q: Query,
                     ghost picked: seq<Server>) returns (n: nat, error: Option<TableError>)
      requires cipher.Inverse() && serverIndex == IndexOf(t.servers) && rows.Length > 0 && !WhereError(q)
      requires Midway(p, conf, rows, 0, t, q, picked) && ShadowedKept(t.servers, conf.servers[..])
      modifies conf.servers, p`columns
      ensures UpdateOutcome(cipher, t, q, n, error, conf.View()) && ShadowedKept(t.servers, conf.servers[..])
      ensures error != Some(StoreFailed) && (cipherWorks ==> error != Some(CipherFailed))
    {
      hide Midway, ShadowedKept, UpdateOutcome, IndexOf, WrittenSoFar, RenamedSoFar;
      n, error := 0, None;
      var k := 0;
      while k < rows.Length
        invariant 0 <= k <= rows.Length && n == k && error == None
        invariant Midway(p, conf, rows, k, t, q, picked) && ShadowedKept(t.servers, conf.servers[..])
      {
        error := UpdateNext(p, conf, rows, k, t, q, picked);
        if error.Some? {
          return;
        }
        n, k := n + 1, k + 1;
      }
      AllMidway(p, conf, rows, t, q, picked);
    }

    lemma AllMidway(p: ParsedQuery, conf: Config, rows: array<Server>, t: Table, q: Query, picked: seq<Server>)
      requires Midway(p, conf, rows, rows.Length, t, q, picked) && rows.Length > 0 && !WhereError(q)
      ensures UpdateOutcome(cipher, t, q, rows.Length, None, conf.View())
    {
      AllWritten(cipher, t, q, picked, conf.View());
    }

    /** `rows[k..]` still update as picked, although `rows` may be the array that is updated. */
    ghost predicate Midway(p: ParsedQuery, conf: Config, rows: array<Server>, k: nat, t: Table, q: Query,
                           picked: seq<Server>)
      reads p, conf, rows, conf.servers
    {
      && k <= rows.Length == |picked| && conf.key == t.key && conf.servers.Length == |t.servers|
      && p.View() == q.(columns := p.columns) && Defaulted(p.columns) == Defaulted(q.columns)
      && picked == PickedRows(t, q) && (rows == conf.servers <==> q.whereColumns == [])
      && if Traceable(t, q) then
           && (forall j :: k <= j < rows.Length ==> SameUpdate(q, rows[j], picked[j]))
           && WrittenSoFar(cipher, t.key, q, t.servers, picked, k, conf.servers[..])
         else RenamedSoFar(cipher, t, q, k, conf.servers[..])
    }

    method UpdateNext(p: ParsedQuery, conf: Config, rows: array<Server>, k: nat, ghost t: Table, ghost q: Query,
                      ghost picked: seq<Server>) returns (error: Option<TableError>)
      requires cipher.Inverse() && serverIndex == IndexOf(t.servers)
      requires Midway(p, conf, rows, k, t, q, picked) && ShadowedKept(t.servers, conf.servers[..]) && k < rows.Length
      modifies conf.servers, p`columns
      ensures ShadowedKept(t.servers, conf.servers[..])
      ensures match error
              case None => Midway(p, conf, rows, k + 1, t, q, picked)
              case Some(_) => forall n, t' :: UpdateOutcome(cipher, t, q, n, error, t')
      ensures error != Some(StoreFailed) && (cipherWorks ==> error != Some(CipherFailed))
    {
      hide EncryptedRow, Fill, Selected, Unique, HasUser, IndexOf, UpdateOutcome, WrittenSoFar, ShadowedKept;
      hide Traceable, SameUpdate, UpdatedRow, RenamedSoFar, PickedRows;
      ghost var before, left := conf.servers[..], rows[..];
      IndexBound(t.servers);
      ghost var row;
      var u := rows[k];
      SameColumns(p.View(), q, u);
      if !Traceable(t, q) {
        RenamedIsIndexed(cipher, t, q, k, before);
      }
      error, row := UpdateRow(p, conf, u);
      if error.Some? {
        UpdateFails(cipher, t, q, picked, k, u, error.value);
        return;
      }
      ShadowedKeptMore(t.servers, before, u.user, row);
      if Traceable(t, q) {
        WrittenMore(cipher, t, q, picked, k, before, u, row);
        StillSame(cipher, t, q, picked, k, left, row, rows == conf.servers);
      } else {
        RenamedMore(cipher, t, q, k, before, row);
      }
    }

    method Update(p: ParsedQuery) returns (n: nat, error: Option<TableError>, ghost loaded: Table)
      requires cipher.Inverse()
      modifies this`serverIndex, this`file, p`columns
      ensures Loaded(old(file), loaded)
      ensures error == None ==>
                && file.Stored? && ShadowedKept(loaded.servers, file.table.servers)
                && UpdateOutcome(cipher, loaded, old(p.View()), n, error, file.table)
      ensures Unshadowed(loaded, old(p.View())) && error == None ==>
                Updated(cipher, loaded, old(p.View()), file.table)
      ensures error.Some? && error.value != StoreFailed ==> file == old(file)
      ensures error == Some(StoreFailed) ==>
                || file == old(file) || file == Unreadable
                || (file.Stored? && UpdateOutcome(cipher, loaded, old(p.View()), n, None, file.table)
                    && ShadowedKept(loaded.servers, file.table.servers))
      ensures error.Some? && error.value != StoreFailed && error.value != CipherFailed ==>
                !CanUpdate(loaded, old(p.View())) || Misses(loaded, old(p.View()))
      ensures (storeWorks ==> error != Some(StoreFailed)) && (cipherWorks ==> error != Some(CipherFailed))
    {
      hide Updated, CanUpdate, Loaded, IndexOf, Misses, Unshadowed, ShadowedKept, Traceable, WrittenThrough;
      hide RenamedSoFar;
      var conf := GetConfig();
      loaded := conf.View();
      n, error := UpdateTable(p, conf);
      if error == None {
        var ok := PutConfig(conf);
        error := if ok then None else Some(StoreFailed);
      }
    }

    /** Whether a row has the name, by the inner loop over the selected rows. */
    method Named(rows: array<Server>, user: string) returns (found: bool)
      ensures found == HasUser(rows[..], user)
    {
      var i := 0;
      found := false;
      while i < rows.Length
        invariant 0 <= i <= rows.Length && forall j :: 0 <= j < i ==> rows[j].user != user
      {
        if rows[i].user == user {
          assert rows[..][i].user == user;
          return true;
        }
        i := i + 1;
      }
    }

    /** The loop over all rows: those with other names than the selected ones, in order, and how many there are not. */
    method Remaining(servers: array<Server>, rows: array<Server>) returns (res: array<Server>, n: nat)
      ensures fresh(res) && res[..] == Survivors(servers[..], rows[..]) && n + res.Length == servers.Length
    {
      hide HasUser;
      var kept: seq<Server> := [];
      var i := 0;
      n := 0;
      while i < servers.Length
        invariant 0 <= i <= servers.Length && n + |kept| == i
        invariant kept == Survivors(servers[..i], rows[..])
      {
        var s := servers[i];
        assert servers[..i + 1][..i] == servers[..i];
        var found := Named(rows, s.user);
        if found {
          n := n + 1;
        } else {
          kept := kept + [s];
        }
        i := i + 1;
      }
      assert servers[..i] == servers[..];
      res := new Server[|kept|](k requires 0 <= k < |kept| => kept[k]);
      assert res[..] == kept;
    }

    method DeleteFrom(p: ParsedQuery, conf: Config) returns (n: nat, error: Option<TableError>)
      modifies conf
      ensures error == None ==>
                && Deleted(old(conf.View()), old(p.View()), conf.View())
                && n + conf.servers.Length == |old(conf.servers[..])|
      ensures error.Some? ==> !CanDelete(old(conf.View()), old(p.View())) && !error.value.StoreFailed?
      ensures error != Some(CipherFailed)
    {
      n, error := 0, None;
      hide Selected, Survivors;
      var rows, e := p.WhereColumnsToConfig(conf.servers);
      if e.Some? {
        error := Some(Reshape(e.value));
        return;
      }
      if rows.Length == 0 {
        error := Some(NotFoundData);
        return;
      }
      conf.servers, n := Remaining(conf.servers, rows);
    }

    method Delete(p: ParsedQuery) returns (n: nat, error: Option<TableError>, ghost loaded: Table)
      requires cipher.Inverse()
      modifies this`serverIndex, this`file
      ensures Loaded(old(file), loaded)
      ensures error == None ==>
                && file.Stored? && Deleted(loaded, old(p.View()), file.table)
                && n + |file.table.servers| == |loaded.servers|
      ensures error.Some? && error.value != StoreFailed ==> file == old(file) && !CanDelete(loaded, old(p.View()))
      ensures error == Some(StoreFailed) ==>
                file == old(file) || file == Unreadable || (file.Stored? && Deleted(loaded, old(p.View()), file.table))
      ensures (storeWorks ==> error != Some(StoreFailed)) && error != Some(CipherFailed)
    {
      hide Deleted, CanDelete, Loaded, IndexOf;
      var conf := GetConfig();
      loaded := conf.View();
      n, error := DeleteFrom(p, conf);
      if error == None {
        var ok := PutConfig(conf);
        error := if ok then None else Some(StoreFailed);
      }
    }

    /** Whatever is loaded of a stored table that stands for the passwords `m` does so too. */
    lemma LoadedRepresents(stored: Store, t: Table, m: Passwords)
      requires StandsFor(cipher, stored, m) && Loaded(stored, t)
      ensures t.key != "" && Unique(t.servers) && Represents(cipher, t, m)
    {
      LoadedIs(stored, t);
    }

    /** Carries out one statement, from loading the table to storing it, on what stands for the passwords `m`. */
    method Execute(s: Statement, ghost m: Passwords) returns (error: Option<TableError>)
      requires cipher.Inverse() && Simple(s) && StandsFor(cipher, file, m)
      modifies this`serverIndex, this`file
      ensures error == None ==> MapAccepts(m, s) && StandsFor(cipher, file, PasswordsAfter(m, s))
      ensures error.Some? && error.value != StoreFailed ==> file == old(file)
      ensures error == Some(StoreFailed) ==>
                file == old(file) || file == Unreadable || StandsFor(cipher, file, PasswordsAfter(m, s))
      ensures error.Some? && error.value != StoreFailed && error.value != CipherFailed ==> !MapAccepts(m, s)
      ensures (storeWorks ==> error != Some(StoreFailed)) && (cipherWorks ==> error != Some(CipherFailed))
    {
      hide Loaded, Represents, Unique, PasswordsAfter, MapAccepts, Inserted, Updated, Deleted, Traceable, Unshadowed;
      hide CanInsert, CanUpdate, CanDelete, PickedRows, InsertRows, WrittenThrough, ShadowedKept, StandsFor, Simple;
      var p := new ParsedQuery.Of(s.q);
      var n;
      ghost var loaded;
      match s {
        case InsertStmt(q) =>
          n, error, loaded := Insert(p);
        case UpdateStmt(q) =>
          n, error, loaded := Update(p);
        case DeleteStmt(q) =>
          n, error, loaded := Delete(p);
      }
      LoadedRepresents(old(file), loaded, m);
      UniqueIsUnshadowed(loaded, s.q);
      AcceptsIffMapDoes(cipher, loaded, m, s);
      if s.UpdateStmt? && error == Some(StoreFailed) && file != old(file) && file != Unreadable {
        OutcomeIsUpdated(cipher, loaded, s.q, n, file.table);
      }
      if error == None || (error == Some(StoreFailed) && file != old(file) && file != Unreadable) {
        AcceptedRefines(cipher, loaded, s, file.table, m);
      }
    }

    /**
     * Carries out a list of statements, as far as the store works. What is stored then stands for the passwords after
     * the statements that were accepted; when encryption works too, these are the ones that are possible on the map.
     */
    method ExecuteAll(stmts: seq<Statement>, ghost m: Passwords) returns (errors: seq<Option<TableError>>)
      requires cipher.Inverse() && StandsFor(cipher, file, m)
      requires forall i :: 0 <= i < |stmts| ==> Simple(stmts[i])
      modifies this`serverIndex, this`file
      ensures |errors| <= |stmts| && (storeWorks ==> |errors| == |stmts|)
      ensures |errors| < |stmts| ==> Some(StoreFailed) in errors
      ensures Some(StoreFailed) !in errors ==> StandsFor(cipher, file, PasswordsAfterAll(m, RunOf(stmts, errors)))
      ensures storeWorks ==> Some(StoreFailed) !in errors
      ensures storeWorks && cipherWorks ==> StandsFor(cipher, file, PasswordsOfAll(m, stmts))
      ensures storeWorks && cipherWorks ==>
                forall i :: 0 <= i < |stmts| ==>
                  (errors[i] == None <==> MapAccepts(PasswordsOfAll(m, stmts[..i]), stmts[i]))
    {
      hide StandsFor, Simple, MapAccepts, PasswordsAfter, PasswordsOfAll, PasswordsAfterAll, RunOf;
      errors := [];
      NoStatements(m, stmts);
      var failed := false;
      while |errors| < |stmts| && !failed
        invariant |errors| <= |stmts| && failed == (Some(StoreFailed) in errors) && (storeWorks ==> !failed)
        invariant !failed ==> StandsFor(cipher, file, PasswordsAfterAll(m, RunOf(stmts, errors)))
        invariant storeWorks && cipherWorks ==>
                    PasswordsAfterAll(m, RunOf(stmts, errors)) == PasswordsOfAll(m, stmts[..|errors|])
        invariant storeWorks && cipherWorks ==>
                    forall j :: 0 <= j < |errors| ==>
                      (errors[j] == None <==> MapAccepts(PasswordsOfAll(m, stmts[..j]), stmts[j]))
        decreases |stmts| - |errors|
      {
        ghost var before := errors;
        var error := Execute(stmts[|errors|], PasswordsAfterAll(m, RunOf(stmts, errors)));
        OneMoreStatement(m, stmts, errors, error);
        errors := errors + [error];
        failed := error == Some(StoreFailed);
      }
      assert stmts[..|stmts|] == stmts;
    }

    method Select(p: ParsedQuery)
      returns (header: seq<string>, rows: seq<seq<string>>, error: Option<TableError>, ghost loaded: Table)
      requires cipher.Inverse()
      modifies this`serverIndex, p`columns
      ensures Loaded(file, loaded)
      ensures error.Some? <==> WhereError(old(p.View()))
      ensures error == None ==>
                && rows == ResultRows(Defaulted(old(p.columns)), PickedRows(loaded, old(p.View())))
                && header == if rows == [] then [] else Header(Defaulted(old(p.columns)))
    {
      hide Loaded, IndexOf, Selected, Header, RowOf;
      header, rows, error := [], [], None;
      var conf := GetConfig();
      loaded := conf.View();
      var picked, e := p.WhereColumnsToConfig(conf.servers);
      if e.Some? {
        error := Some(Reshape(e.value));
        return;
      }
      header, rows := p.SelectResultset(picked);
    }
  }

  /** A row that a later row of the same name hides from the index is never changed. */
  ghost predicate ShadowedKept(ss: seq<Server>, now: seq<Server>) {
    && |now| == |ss|
    && forall i, j :: 0 <= i < j < |ss| && ss[i].user == ss[j].user ==> now[i] == ss[i]
  }

  lemma ShadowedKeptStart(ss: seq<Server>)
    ensures ShadowedKept(ss, ss)
  {
  }

  lemma ShadowedKeptMore(ss: seq<Server>, now: seq<Server>, user: string, row: Server)
    requires ShadowedKept(ss, now) && user in IndexOf(ss)
    ensures IndexOf(ss)[user] < |now| && ShadowedKept(ss, now[IndexOf(ss)[user] := row])
  {
    IndexIsLast(ss);
  }

  /** No selected row has a later row of the same name. */
  predicate Unshadowed(t: Table, q: Query) {
    forall i, j :: 0 <= i < j < |t.servers| && Picks(q.whereColumns, q.whereValues, t.servers[i]) ==>
      t.servers[i].user != t.servers[j].user
  }

  /** The rows gone over are a copy, keep their names, or have names of their own. */
  predicate Traceable(t: Table, q: Query) {
    q.whereColumns != [] || PasswordOnly(Defaulted(q.columns)) || Unique(t.servers)
  }

  lemma UnshadowedIsTraceable(t: Table, q: Query)
    requires Unshadowed(t, q)
    ensures Traceable(t, q)
  {
  }

  /** The last row of each selected name is the update of the last row selected under it; no other row changes. */
  ghost predicate WrittenThrough(c: Cipher, t: Table, q: Query, t': Table) {
    && CanUpdate(t, q) && t'.key == t.key
    && WrittenSoFar(c, t.key, q, t.servers, PickedRows(t, q), |PickedRows(t, q)|, t'.servers)
  }

  /** The table midway through an update, after the first `k` of the selected rows. */
  ghost predicate WrittenSoFar(c: Cipher, key: string, q: Query, ss: seq<Server>, rows: seq<Server>, k: nat,
                               now: seq<Server>)
  {
    && k <= |rows| && |now| == |ss|
    && forall i :: 0 <= i < |ss| ==>
         if Reaches(ss, rows[..k], i) then WrittenRow(c, key, q, rows[..k], ss[i].user, now[i]) else now[i] == ss[i]
  }

  /** The index leads one of the rows to row `i`. */
  predicate Reaches(ss: seq<Server>, rows: seq<Server>, i: nat)
    requires i < |ss|
  {
    ss[i].user in IndexOf(rows) && ss[i].user in IndexOf(ss) && IndexOf(ss)[ss[i].user] == i
  }

  /** `row` is the update of the last of the rows that has the name. */
  ghost predicate WrittenRow(c: Cipher, key: string, q: Query, rows: seq<Server>, user: string, row: Server) {
    user in IndexOf(rows) && IndexOf(rows)[user] < |rows| &&
    var source := UpdatedRow(q, rows[IndexOf(rows)[user]]);
    source.Ok? && EncryptedRow(c, key, source.value, row)
  }

  predicate SameUpdate(q: Query, a: Server, b: Server) {
    a.user == b.user && UpdatedRow(q, a) == UpdatedRow(q, b)
  }

  // Renaming all rows of a table with names used twice, where lookups follow the names already given

  function NewName(q: Query): string {
    Pick(Defaulted(q.columns), LUSER, q.values, "")
  }

  predicate SetsPassword(q: Query) {
    LastOf(Defaulted(q.columns), LPASSWORD).Some?
  }

  /** A row as the update leaves it: with the new name and, when one is set, the new password. */
  ghost predicate Given(c: Cipher, key: string, q: Query, row: Server) {
    && row.user == NewName(q)
    && (SetsPassword(q) ==>
          c.open(key, row.password) == Some(Pick(Defaulted(q.columns), LPASSWORD, q.values, "")))
  }

  /** A row overwritten before the loop comes to it has a name that leads nowhere. */
  predicate Misses(t: Table, q: Query) {
    !Traceable(t, q) && !HasUser(t.servers, NewName(q))
  }

  /** After the first `k` rows: what has changed is some last rows of a name, among them those of these rows' names. */
  ghost predicate RenamedSoFar(c: Cipher, t: Table, q: Query, k: nat, now: seq<Server>) {
    var ss := t.servers;
    && k <= |ss| == |now|
    && (k > 0 ==> |Defaulted(q.columns)| <= |q.values| && AllKnown(Defaulted(q.columns)))
    && (forall i :: 0 <= i < |ss| ==> now[i] == ss[i] || (LastOfName(ss, i) && Given(c, t.key, q, now[i])))
    && (forall j, l :: 0 <= j < k && LastOfName(ss, l) && ss[l].user == ss[j].user ==> Given(c, t.key, q, now[l]))
    && (Misses(t, q) ==> forall i, j :: 0 <= i < j < k && ss[i].user == ss[j].user ==> !LastOfName(ss, j))
  }

  lemma RenamedRow(q: Query, u: Server)
    requires !PasswordOnly(Defaulted(q.columns)) && UpdatedRow(q, u).Ok?
    ensures
      var password := if SetsPassword(q) then Pick(Defaulted(q.columns), LPASSWORD, q.values, "") else u.password;
      UpdatedRow(q, u).value == Server(NewName(q), password)
  {
    FillIs(Defaulted(q.columns), q.values, u);
    hide ToLower;
  }

  /** All rows of the table are gone over, and each is found unless it has a new name that is missing. */
  lemma RenamedIsIndexed(c: Cipher, t: Table, q: Query, k: nat, now: seq<Server>)
    requires k < |PickedRows(t, q)| && !Traceable(t, q) && RenamedSoFar(c, t, q, k, now)
    ensures k < |t.servers| && q.whereColumns == []
    ensures !Misses(t, q) ==> now[k].user in IndexOf(t.servers)
  {
    SelectedAll(q.whereValues, t.servers);
    IndexIsLast(t.servers);
  }

  lemma RenamedMore(c: Cipher, t: Table, q: Query, k: nat, now: seq<Server>, row: Server)
    requires !Traceable(t, q) && k < |t.servers| && RenamedSoFar(c, t, q, k, now)
    requires now[k].user in IndexOf(t.servers) && UpdatedRow(q, now[k]).Ok?
    requires EncryptedRow(c, t.key, UpdatedRow(q, now[k]).value, row)
    ensures IndexOf(t.servers)[now[k].user] < |now|
    ensures RenamedSoFar(c, t, q, k + 1, now[IndexOf(t.servers)[now[k].user] := row])
  {
    var ss := t.servers;
    IndexIsLast(ss);
    RenamedRow(q, now[k]);
    FillIs(Defaulted(q.columns), q.values, now[k]);
    var x := IndexOf(ss)[now[k].user];
    assert LastOfName(ss, x) && ss[x].user == now[k].user && Given(c, t.key, q, row);
    if Misses(t, q) {
      NewNameMissing(c, t, q, now[k]);
    }
    RenamedThere(c, t, q, k, now, row, x);
  }

  lemma RenamedThere(c: Cipher, t: Table, q: Query, k: nat, now: seq<Server>, row: Server, x: nat)
    requires k < |t.servers| && RenamedSoFar(c, t, q, k, now)
    requires |Defaulted(q.columns)| <= |q.values| && AllKnown(Defaulted(q.columns))
    requires LastOfName(t.servers, x) && t.servers[x].user == now[k].user && Given(c, t.key, q, row)
    requires Misses(t, q) ==> !Given(c, t.key, q, now[k])
    ensures RenamedSoFar(c, t, q, k + 1, now[x := row])
  {
    NoneMissed(c, t, q, k, now);
    hide Given, Misses, AllKnown, Defaulted;
    var ss, after := t.servers, now[x := row];
    forall j, l | 0 <= j < k + 1 && LastOfName(ss, l) && ss[l].user == ss[j].user
      ensures Given(c, t.key, q, after[l])
    {
      if j < k {
        assert Given(c, t.key, q, now[l]);
      } else if now[k] == ss[k] {
        OneLast(ss, l, x);
      } else {
        OneLast(ss, l, k);
      }
    }
    assert forall i :: 0 <= i < |ss| && i != x ==> after[i] == now[i];
  }

  /** The next row is not the last of a name that has come before, if it has not been given the new name. */
  lemma NoneMissed(c: Cipher, t: Table, q: Query, k: nat, now: seq<Server>)
    requires k < |t.servers| && RenamedSoFar(c, t, q, k, now)
    requires Misses(t, q) ==> !Given(c, t.key, q, now[k])
    ensures Misses(t, q) ==>
              forall i, j :: 0 <= i < j < k + 1 && t.servers[i].user == t.servers[j].user ==> !LastOfName(t.servers, j)
  {
    hide Given, Misses, AllKnown, Defaulted;
  }

  lemma OneLast(ss: seq<Server>, i: int, j: int)
    requires LastOfName(ss, i) && LastOfName(ss, j) && ss[i].user == ss[j].user
    ensures i == j
  {
  }

  lemma NewNameMissing(c: Cipher, t: Table, q: Query, row: Server)
    requires Misses(t, q) && row.user in IndexOf(t.servers)
    ensures !Given(c, t.key, q, row)
  {
    IndexIsLast(t.servers);
    assert t.servers[IndexOf(t.servers)[row.user]].user == row.user;
  }

  /** How an update ends. */
  ghost predicate UpdateOutcome(c: Cipher, t: Table, q: Query, n: nat, error: Option<TableError>, t': Table) {
    match error
    case None =>
      && CanUpdate(t, q) && !Misses(t, q) && n == |PickedRows(t, q)| && t'.key == t.key
      && (Traceable(t, q) || SetsPassword(q) ==> WrittenThrough(c, t, q, t'))
      && (!Traceable(t, q) ==> RenamedSoFar(c, t, q, |t.servers|, t'.servers))
    case Some(e) =>
      && (e.NotFound? ==> Misses(t, q))
      && (e == CipherFailed || e.NotFound? || !CanUpdate(t, q))
  }

  lemma NothingToUpdate(c: Cipher, t: Table, q: Query, e: TableError)
    requires !e.NotFound? && (WhereError(q) || PickedRows(t, q) == [])
    ensures forall t' :: UpdateOutcome(c, t, q, 0, Some(e), t')
  {
  }

  lemma IndexBound(ss: seq<Server>)
    ensures forall name :: name in IndexOf(ss) ==> IndexOf(ss)[name] < |ss|
  {
    IndexIsLast(ss);
  }

  lemma NothingWritten(c: Cipher, t: Table, q: Query, rows: seq<Server>)
    ensures WrittenSoFar(c, t.key, q, t.servers, rows, 0, t.servers)
    ensures RenamedSoFar(c, t, q, 0, t.servers)
    ensures forall j :: 0 <= j < |rows| ==> SameUpdate(q, rows[j], rows[j])
  {
  }

  lemma SameColumns(p: Query, q: Query, s: Server)
    requires Defaulted(p.columns) == Defaulted(q.columns) && p.values == q.values
    ensures UpdatedRow(p, s) == UpdatedRow(q, s)
  {
  }

  /** The name of a selected row is in the index. */
  lemma PickedIsIndexed(t: Table, q: Query, k: nat)
    requires k < |PickedRows(t, q)|
    ensures PickedRows(t, q)[k].user in IndexOf(t.servers)
    ensures q.whereColumns == [] ==> PickedRows(t, q) == t.servers
  {
    var i := FoundIn(s => Picks(q.whereColumns, q.whereValues, s), t.servers, k);
    IndexIsLast(t.servers);
    if q.whereColumns == [] {
      SelectedAll(q.whereValues, t.servers);
    }
  }

  lemma WrittenMore(c: Cipher, t: Table, q: Query, rows: seq<Server>, k: nat, now: seq<Server>, u: Server, row: Server)
    requires rows == PickedRows(t, q) && k < |rows| && SameUpdate(q, u, rows[k])
    requires WrittenSoFar(c, t.key, q, t.servers, rows, k, now)
    requires UpdatedRow(q, u).Ok? && EncryptedRow(c, t.key, UpdatedRow(q, u).value, row)
    ensures u.user in IndexOf(t.servers) && IndexOf(t.servers)[u.user] < |now|
    ensures WrittenSoFar(c, t.key, q, t.servers, rows, k + 1, now[IndexOf(t.servers)[u.user] := row])
  {
    var ss := t.servers;
    PickedIsIndexed(t, q, k);
    IndexIsLast(ss);
    hide Picks, Selected, IndexOf, WrittenRow, Reaches;
    var x := IndexOf(ss)[u.user];
    WrittenRowNew(c, t.key, q, rows, k, u, row);
    forall i | 0 <= i < |ss|
      ensures Reaches(ss, rows[..k + 1], i) == (i == x || Reaches(ss, rows[..k], i))
      ensures i == x ==> ss[i].user == u.user
      ensures i != x && Reaches(ss, rows[..k], i) && WrittenRow(c, t.key, q, rows[..k], ss[i].user, now[i]) ==>
                WrittenRow(c, t.key, q, rows[..k + 1], ss[i].user, now[i])
    {
      ReachesMore(ss, rows, k, i);
      if i != x && Reaches(ss, rows[..k], i) && WrittenRow(c, t.key, q, rows[..k], ss[i].user, now[i]) {
        WrittenRowStays(c, t.key, q, rows, k, ss[i].user, now[i]);
      }
    }
    hide EncryptedRow, UpdatedRow;
  }

  lemma ReachesMore(ss: seq<Server>, rows: seq<Server>, k: nat, i: nat)
    requires k < |rows| && i < |ss| && rows[k].user in IndexOf(ss)
    ensures var x := IndexOf(ss)[rows[k].user];
            && Reaches(ss, rows[..k + 1], i) == (i == x || Reaches(ss, rows[..k], i))
            && (i == x ==> ss[i].user == rows[k].user)
            && (i != x && Reaches(ss, rows[..k], i) ==> ss[i].user != rows[k].user)
  {
    IndexIsLast(ss);
    IndexOfMore(rows[..k], rows[k]);
    assert rows[..k + 1] == rows[..k] + [rows[k]];
    hide IndexOf;
  }

  lemma WrittenRowNew(c: Cipher, key: string, q: Query, rows: seq<Server>, k: nat, u: Server, row: Server)
    requires k < |rows| && SameUpdate(q, u, rows[k])
    requires UpdatedRow(q, u).Ok? && EncryptedRow(c, key, UpdatedRow(q, u).value, row)
    ensures WrittenRow(c, key, q, rows[..k + 1], u.user, row)
  {
    IndexOfMore(rows[..k], rows[k]);
    assert rows[..k + 1] == rows[..k] + [rows[k]];
    hide IndexOf, UpdatedRow, EncryptedRow;
  }

  lemma WrittenRowStays(c: Cipher, key: string, q: Query, rows: seq<Server>, k: nat, user: string, kept: Server)
    requires k < |rows| && rows[k].user != user && WrittenRow(c, key, q, rows[..k], user, kept)
    ensures WrittenRow(c, key, q, rows[..k + 1], user, kept)
  {
    IndexOfMore(rows[..k], rows[k]);
    assert rows[..k + 1] == rows[..k] + [rows[k]];
    hide IndexOf, UpdatedRow, EncryptedRow;
  }

  /** What is written does not change how the rows still to come update, even when it is written among them. */
  lemma StillSame(c: Cipher, t: Table, q: Query, rows: seq<Server>, k: nat, left: seq<Server>, row: Server,
                  shared: bool)
    requires Traceable(t, q) && rows == PickedRows(t, q) && k < |rows| == |left| && (shared ==> q.whereColumns == [])
    requires forall j :: k <= j < |rows| ==> SameUpdate(q, left[j], rows[j])
    requires UpdatedRow(q, left[k]).Ok? && EncryptedRow(c, t.key, UpdatedRow(q, left[k]).value, row)
    ensures left[k].user in IndexOf(t.servers)
    ensures var x := IndexOf(t.servers)[left[k].user];
            shared ==> x < |left| && forall j :: k < j < |rows| ==> SameUpdate(q, left[x := row][j], rows[j])
  {
    PickedIsIndexed(t, q, k);
    if shared {
      IndexIsLast(t.servers);
      var x := IndexOf(t.servers)[left[k].user];
      if Unique(t.servers) {
        IndexIsExact(t.servers, k);
      } else {
        var columns := Defaulted(q.columns);
        FillIs(columns, q.values, left[k]);
        PasswordColumns(columns, q.values, left[k]);
        PasswordColumns(columns, q.values, row);
        PasswordColumns(columns, q.values, rows[x]);
      }
    }
  }

  lemma UpdateFails(c: Cipher, t: Table, q: Query, rows: seq<Server>, k: nat, u: Server, e: TableError)
    requires rows == PickedRows(t, q) && k < |rows|
    requires Traceable(t, q) ==> SameUpdate(q, u, rows[k])
    requires !Traceable(t, q) && !Misses(t, q) ==> u.user in IndexOf(t.servers)
    requires match e
             case NotFound(_) => u.user !in IndexOf(t.servers)
             case Reshape(x) => UpdatedRow(q, u) == Err(x)
             case _ => e == CipherFailed
    ensures forall n, t' :: UpdateOutcome(c, t, q, n, Some(e), t')
  {
    PickedIsIndexed(t, q, k);
    FillIs(Defaulted(q.columns), q.values, u);
  }

  lemma AllWritten(c: Cipher, t: Table, q: Query, rows: seq<Server>, t': Table)
    requires !WhereError(q) && rows == PickedRows(t, q) != [] && t'.key == t.key
    requires if Traceable(t, q) then WrittenSoFar(c, t.key, q, t.servers, rows, |rows|, t'.servers)
             else RenamedSoFar(c, t, q, |rows|, t'.servers)
    ensures UpdateOutcome(c, t, q, |rows|, None, t')
  {
    PickedIsIndexed(t, q, 0);
    if Traceable(t, q) {
      assert rows[..|rows|] == rows;
      IndexIsLast(t.servers);
      IndexIsLast(rows);
      var i := IndexOf(t.servers)[rows[0].user];
      assert Reaches(t.servers, rows, i);
      assert WrittenRow(c, t.key, q, rows, t.servers[i].user, t'.servers[i]);
      FillIs(Defaulted(q.columns), q.values, rows[IndexOf(rows)[t.servers[i].user]]);
    } else {
      AllRenamed(c, t, q, t');
    }
  }

  lemma AllRenamed(c: Cipher, t: Table, q: Query, t': Table)
    requires !Traceable(t, q) && !WhereError(q) && PickedRows(t, q) != [] && t'.key == t.key
    requires RenamedSoFar(c, t, q, |PickedRows(t, q)|, t'.servers)
    ensures CanUpdate(t, q) && !Misses(t, q) && PickedRows(t, q) == t.servers
    ensures SetsPassword(q) ==> WrittenThrough(c, t, q, t')
  {
    var ss := t.servers;
    SelectedAll(q.whereValues, ss);
    assert PickedRows(t, q) == ss && ss[..|ss|] == ss;
    DuplicateBeforeLast(ss);
    hide Fill, IndexOf, NewName, Selected, Given, Defaulted, AllKnown;
    if SetsPassword(q) {
      forall i | 0 <= i < |ss|
        ensures if Reaches(ss, ss, i) then WrittenRow(c, t.key, q, ss, ss[i].user, t'.servers[i])
                else t'.servers[i] == ss[i]
      {
        RenamedWritten(c, t, q, t', i);
      }
    }
  }

  lemma DuplicateBeforeLast(ss: seq<Server>)
    requires !Unique(ss)
    ensures exists i, j :: 0 <= i < j < |ss| && ss[i].user == ss[j].user && LastOfName(ss, j)
  {
    var i, j :| 0 <= i < j < |ss| && ss[i].user == ss[j].user;
    IndexIsLast(ss);
    assert LastOfName(ss, IndexOf(ss)[ss[i].user]);
  }

  lemma RenamedWritten(c: Cipher, t: Table, q: Query, t': Table, i: nat)
    requires !Traceable(t, q) && SetsPassword(q) && CanUpdate(t, q) && i < |t.servers|
    requires RenamedSoFar(c, t, q, |t.servers|, t'.servers)
    ensures if Reaches(t.servers, t.servers, i)
            then WrittenRow(c, t.key, q, t.servers, t.servers[i].user, t'.servers[i])
            else t'.servers[i] == t.servers[i]
  {
    var ss := t.servers;
    IndexIsLastOfName(ss, i);
    var source := ss[IndexOf(ss)[ss[i].user]];
    FillIs(Defaulted(q.columns), q.values, source);
    RenamedRow(q, source);
    hide UpdatedRow, Fill, IndexOf, NewName, SetsPassword, Traceable, Misses;
  }

  // When writing through is the pointwise update

  /** The last row of a name, when it is selected, is the last one selected under the name. */
  lemma {:induction false} LastPickedRow(f: Server -> bool, ss: seq<Server>, i: nat)
    requires i < |ss| && f(ss[i]) && forall j :: i < j < |ss| ==> ss[j].user != ss[i].user
    ensures var rows := Filter(f, ss);
            ss[i].user in IndexOf(rows) && IndexOf(rows)[ss[i].user] < |rows| &&
            rows[IndexOf(rows)[ss[i].user]] == ss[i]
  {
    var n := |ss| - 1;
    var rest := Filter(f, ss[..n]);
    IndexOfMore(rest, ss[n]);
    assert Filter(f, ss) == rest + (if f(ss[n]) then [ss[n]] else []);
    hide Filter, IndexOf;
    if i < n {
      LastPickedRow(f, ss[..n], i);
      assert rest + [] == rest;
    }
  }

  predicate LastOfName(ss: seq<Server>, i: int) {
    0 <= i < |ss| && forall j :: i < j < |ss| ==> ss[j].user != ss[i].user
  }

  lemma IndexIsLastOfName(ss: seq<Server>, i: nat)
    requires i < |ss|
    ensures ss[i].user in IndexOf(ss) && (IndexOf(ss)[ss[i].user] == i <==> LastOfName(ss, i))
    ensures LastOfName(ss, IndexOf(ss)[ss[i].user]) && ss[IndexOf(ss)[ss[i].user]].user == ss[i].user
  {
    IndexIsLast(ss);
  }

  /**
   * A selected row that a later row of its name hides already has what the update would give it, and the last row of
   * the name is selected too.
   */
  ghost predicate Harmless(c: Cipher, t: Table, q: Query) {
    forall i :: 0 <= i < |t.servers| && Picks(q.whereColumns, q.whereValues, t.servers[i]) &&
                !LastOfName(t.servers, i) ==>
      && UpdatedRow(q, t.servers[i]).Ok?
      && EncryptedRow(c, t.key, UpdatedRow(q, t.servers[i]).value, t.servers[i])
      && HasLastPicked(t, q, t.servers[i].user)
  }

  ghost predicate HasLastPicked(t: Table, q: Query, user: string) {
    exists l :: LastOfName(t.servers, l) && t.servers[l].user == user &&
                Picks(q.whereColumns, q.whereValues, t.servers[l])
  }

  /** A selected row, in terms of the rows selected. */
  lemma PickedHere(t: Table, q: Query, user: string)
    ensures user in IndexOf(PickedRows(t, q)) <==>
            exists i :: 0 <= i < |t.servers| && t.servers[i].user == user &&
                        Picks(q.whereColumns, q.whereValues, t.servers[i])
  {
    var f := (s: Server) => Picks(q.whereColumns, q.whereValues, s);
    var rows := PickedRows(t, q);
    FilterMembers(f, t.servers);
    IndexIsLast(rows);
    if user in IndexOf(rows) {
      assert rows[IndexOf(rows)[user]] in rows;
    }
    if i :| 0 <= i < |t.servers| && t.servers[i].user == user && f(t.servers[i]) {
      assert t.servers[i] in rows;
    }
  }

  lemma HarmlessRow(c: Cipher, t: Table, q: Query, t': Table, i: nat)
    requires WrittenThrough(c, t, q, t') && Harmless(c, t, q) && i < |t.servers|
    ensures if Picks(q.whereColumns, q.whereValues, t.servers[i])
            then UpdatedRow(q, t.servers[i]).Ok?
                 && EncryptedRow(c, t.key, UpdatedRow(q, t.servers[i]).value, t'.servers[i])
            else t'.servers[i] == t.servers[i]
  {
    var ss, rows := t.servers, PickedRows(t, q);
    assert rows[..|rows|] == rows;
    IndexIsLastOfName(ss, i);
    PickedHere(t, q, ss[i].user);
    hide EncryptedRow, UpdatedRow, IndexOf, Picks;
    if Picks(q.whereColumns, q.whereValues, ss[i]) && LastOfName(ss, i) {
      LastPickedRow(s => Picks(q.whereColumns, q.whereValues, s), ss, i);
      assert WrittenRow(c, t.key, q, rows, ss[i].user, t'.servers[i]);
    }
  }

  /**
   * Provided encryption never gives back the text that was stored, an update that succeeds is pointwise exactly when
   * it is harmless.
   */
  lemma WrittenIsPointwiseIff(c: Cipher, t: Table, q: Query, t': Table)
    requires WrittenThrough(c, t, q, t')
    requires forall i :: 0 <= i < |t.servers| && Reaches(t.servers, PickedRows(t, q), i) ==>
               t'.servers[i] != t.servers[i]
    ensures Updated(c, t, q, t') <==> Harmless(c, t, q)
  {
    if Harmless(c, t, q) {
      HarmlessIsPointwise(c, t, q, t');
    }
    if Updated(c, t, q, t') {
      forall i | 0 <= i < |t.servers| && Picks(q.whereColumns, q.whereValues, t.servers[i]) &&
                 !LastOfName(t.servers, i)
        ensures UpdatedRow(q, t.servers[i]).Ok?
        ensures EncryptedRow(c, t.key, UpdatedRow(q, t.servers[i]).value, t.servers[i])
        ensures HasLastPicked(t, q, t.servers[i].user)
      {
        PointwiseRow(c, t, q, t', i);
      }
    }
  }

  lemma HarmlessIsPointwise(c: Cipher, t: Table, q: Query, t': Table)
    requires WrittenThrough(c, t, q, t') && Harmless(c, t, q)
    ensures Updated(c, t, q, t')
  {
    hide Harmless, EncryptedRow, UpdatedRow, Picks;
    forall i | 0 <= i < |t.servers|
      ensures if Picks(q.whereColumns, q.whereValues, t.servers[i])
              then UpdatedRow(q, t.servers[i]).Ok?
                   && EncryptedRow(c, t.key, UpdatedRow(q, t.servers[i]).value, t'.servers[i])
              else t'.servers[i] == t.servers[i]
    {
      HarmlessRow(c, t, q, t', i);
    }
  }

  lemma PointwiseRow(c: Cipher, t: Table, q: Query, t': Table, i: nat)
    requires WrittenThrough(c, t, q, t') && Updated(c, t, q, t') && i < |t.servers|
    requires forall i :: 0 <= i < |t.servers| && Reaches(t.servers, PickedRows(t, q), i) ==>
               t'.servers[i] != t.servers[i]
    requires Picks(q.whereColumns, q.whereValues, t.servers[i]) && !LastOfName(t.servers, i)
    ensures t'.servers[i] == t.servers[i] && HasLastPicked(t, q, t.servers[i].user)
  {
    var ss, rows := t.servers, PickedRows(t, q);
    assert rows[..|rows|] == rows;
    IndexIsLastOfName(ss, i);
    PickedHere(t, q, ss[i].user);
    var l := IndexOf(ss)[ss[i].user];
    IndexIsLastOfName(ss, l);
    hide EncryptedRow, UpdatedRow, IndexOf, Picks;
    assert Reaches(ss, rows, l);
  }

  /**
   * Over all tables, provided encryption never gives back a text that was stored and no text decrypts to itself: an
   * update that succeeds is pointwise exactly when it is harmless.
   */
  lemma UpdateIsPointwiseIffHarmless(c: Cipher, t: Table, q: Query, n: nat, t': Table)
    requires UpdateOutcome(c, t, q, n, None, t') && ShadowedKept(t.servers, t'.servers)
    requires forall i :: 0 <= i < |t.servers| && Reaches(t.servers, PickedRows(t, q), i) ==>
               t'.servers[i] != t.servers[i]
    requires forall key, s :: c.open(key, s) != Some(s)
    ensures Updated(c, t, q, t') <==> Harmless(c, t, q)
  {
    if Traceable(t, q) || SetsPassword(q) {
      WrittenIsPointwiseIff(c, t, q, t');
    } else {
      RenamedIsNotPointwise(c, t, q, t');
    }
  }

  lemma RenamedIsNotPointwise(c: Cipher, t: Table, q: Query, t': Table)
    requires !Traceable(t, q) && !SetsPassword(q) && ShadowedKept(t.servers, t'.servers)
    requires forall key, s :: c.open(key, s) != Some(s)
    ensures !Updated(c, t, q, t') && !Harmless(c, t, q)
  {
    var ss := t.servers;
    var i, j :| 0 <= i < j < |ss| && ss[i].user == ss[j].user;
    assert Picks(q.whereColumns, q.whereValues, ss[i]) && !LastOfName(ss, i);
    if UpdatedRow(q, ss[i]).Ok? {
      RenamedRow(q, ss[i]);
      assert c.open(t.key, ss[i].password) != Some(ss[i].password);
    }
  }

  lemma OutcomeIsUpdated(c: Cipher, t: Table, q: Query, n: nat, t': Table)
    requires UpdateOutcome(c, t, q, n, None, t')
    ensures Unshadowed(t, q) ==> Updated(c, t, q, t')
  {
    if Unshadowed(t, q) {
      UnshadowedIsTraceable(t, q);
      assert forall i :: 0 <= i < |t.servers| && Picks(q.whereColumns, q.whereValues, t.servers[i]) ==>
                           LastOfName(t.servers, i);
      HarmlessIsPointwise(c, t, q, t');
    }
  }

  /**
   * Over all tables: when the update would change the selected rows that are hidden by a later row of their name, it
   * is pointwise exactly when there are none.
   */
  lemma UpdateIsPointwiseIff(c: Cipher, t: Table, q: Query, n: nat, t': Table)
    requires UpdateOutcome(c, t, q, n, None, t') && ShadowedKept(t.servers, t'.servers)
    requires forall i :: 0 <= i < |t.servers| && Picks(q.whereColumns, q.whereValues, t.servers[i]) &&
                         !LastOfName(t.servers, i) && UpdatedRow(q, t.servers[i]).Ok? ==>
               !EncryptedRow(c, t.key, UpdatedRow(q, t.servers[i]).value, t.servers[i])
    ensures Updated(c, t, q, t') <==> Unshadowed(t, q)
  {
    OutcomeIsUpdated(c, t, q, n, t');
    if !Unshadowed(t, q) {
      var i, j :| 0 <= i < j < |t.servers| && Picks(q.whereColumns, q.whereValues, t.servers[i]) &&
                  t.servers[i].user == t.servers[j].user;
      assert !LastOfName(t.servers, i);
    }
  }

  /**
   * Two rows of one name, of which the first is selected: the update is possible, and however it is encrypted it
   * leaves the selected row as it was and changes the other.
   */
  lemma UpdateMissesItsRow(c: Cipher, key: string) returns (t: Table, q: Query)
    requires c.Inverse()
    ensures |t.servers| == 2 && t.servers[0].user == t.servers[1].user
    ensures PickedRows(t, q) == [t.servers[0]] && CanUpdate(t, q) && Traceable(t, q) && !Unshadowed(t, q)
    ensures forall t' :: WrittenThrough(c, t, q, t') ==>
              && t'.servers[0] == t.servers[0] && t'.servers[1] != t.servers[1] && !Updated(c, t, q, t')
  {
    var p, r := c.seal(key, 0, "1"), c.seal(key, 0, "2");
    assert c.open(key, p) == Some("1") && c.open(key, r) == Some("2");
    t := Table([Server("a", p), Server("a", r)], key);
    q := Query("", "", [PASSWORD], ["3"], "", [PASSWORD], [p], EQ);
    NamesDiffer();
    var s0, s1 := t.servers[0], t.servers[1];
    assert LastKnown([PASSWORD]) == Some(0);
    assert Picks(q.whereColumns, q.whereValues, s0) && !Picks(q.whereColumns, q.whereValues, s1);
    TwoRows(q, s0, s1);
    assert t.servers == [s0, s1];
    assert AllKnown(Defaulted(q.columns));
    forall t' | WrittenThrough(c, t, q, t')
      ensures t'.servers[0] == t.servers[0] && t'.servers[1] != t.servers[1] && !Updated(c, t, q, t')
    {
      IndexIsLastOfName(t.servers, 0);
      IndexIsLastOfName(t.servers, 1);
      var rows := PickedRows(t, q);
      assert rows[..|rows|] == rows == [s0];
      IndexIsLast(rows);
      assert Reaches(t.servers, rows, 1);
      assert WrittenRow(c, key, q, rows, "a", t'.servers[1]);
      PasswordColumns(q.columns, q.values, s0);
      assert LastOf(q.columns, LPASSWORD) == Some(0);
    }
  }

  lemma TwoRows(q: Query, s0: Server, s1: Server)
    requires Picks(q.whereColumns, q.whereValues, s0) && !Picks(q.whereColumns, q.whereValues, s1)
    ensures Selected(q.whereColumns, q.whereValues, [s0, s1]) == [s0]
  {
    var f := (s: Server) => Picks(q.whereColumns, q.whereValues, s);
    assert [s0, s1][..1] == [s0] && [s0][..0] == [];
    assert Filter(f, []) == [];
    assert Filter(f, [s0]) == [] + [s0];
  }

  lemma NothingInserted(c: Cipher, key: string, ss: seq<Server>, rows: seq<Server>)
    ensures Extended(c, key, ss, rows[..0], ss) && NewUsers(ss, rows[..0])
  {
  }

  lemma ExtendedMore(c: Cipher, key: string, ss: seq<Server>, rows: seq<Server>, after: seq<Server>, plain: Server,
                     row: Server)
    requires Extended(c, key, ss, rows, after) && EncryptedRow(c, key, plain, row)
    ensures Extended(c, key, ss, rows + [plain], after + [row])
  {
  }

  /** The next row keeps the names new exactly when its own is neither in the table nor among the rows before it. */
  lemma NewUsersMore(ss: seq<Server>, rows: seq<Server>, k: nat)
    requires k < |rows| && NewUsers(ss, rows[..k])
    ensures rows[..k + 1] == rows[..k] + [rows[k]]
    ensures if HasUser(ss, rows[k].user) || HasUser(rows[..k], rows[k].user) then !NewUsers(ss, rows)
            else NewUsers(ss, rows[..k + 1])
  {
    assert rows[..k + 1] == rows[..k] + [rows[k]];
    if HasUser(rows[..k], rows[k].user) {
      var i :| 0 <= i < k && rows[..k][i].user == rows[k].user;
      assert rows[i].user == rows[k].user;
    } else {
      forall i | 0 <= i < k
        ensures rows[i].user != rows[k].user
      {
        assert rows[..k][i].user == rows[i].user;
      }
    }
  }

  lemma ExtendedUsers(c: Cipher, key: string, ss: seq<Server>, rows: seq<Server>, after: seq<Server>, user: string)
    requires Extended(c, key, ss, rows, after)
    ensures user in IndexOf(after) <==> HasUser(ss, user) || HasUser(rows, user)
  {
    IndexIsLast(after);
    if user in IndexOf(after) {
      var i := IndexOf(after)[user];
      if i < |ss| {
        assert ss[i].user == user;
      } else {
        assert rows[i - |ss|].user == user;
      }
    }
    if HasUser(ss, user) {
      var i :| 0 <= i < |ss| && ss[i].user == user;
      assert after[i].user == user;
    }
    if HasUser(rows, user) {
      var i :| 0 <= i < |rows| && rows[i].user == user;
      assert after[|ss| + i].user == user;
    }
  }

  // The table as a map from users to passwords, over runs of statements

  datatype Statement = InsertStmt(q: Query) | UpdateStmt(q: Query) | DeleteStmt(q: Query)

  ghost predicate Accepted(c: Cipher, t: Table, s: Statement, t': Table) {
    match s
    case InsertStmt(q) => Inserted(c, t, q, t')
    case UpdateStmt(q) => Updated(c, t, q, t')
    case DeleteStmt(q) => Deleted(t, q, t')
  }

  predicate CanAccept(t: Table, s: Statement) {
    match s
    case InsertStmt(q) => CanInsert(t, q)
    case UpdateStmt(q) => CanUpdate(t, q)
    case DeleteStmt(q) => CanDelete(t, q)
  }

  predicate PasswordOnly(columns: seq<string>) {
    columns != [] && forall i :: 0 <= i < |columns| ==> ToLower(columns[i]) == LPASSWORD
  }

  /** No condition, or the one condition `User = v`. */
  predicate ByUser(q: Query) {
    q.whereColumns == [] || (|q.whereColumns| == 1 && ToLower(q.whereColumns[0]) == LUSER && q.whereOp == EQ)
  }

  predicate Simple(s: Statement) {
    match s
    case InsertStmt(_) => true
    case UpdateStmt(q) => PasswordOnly(q.columns) && ByUser(q)
    case DeleteStmt(q) => ByUser(q)
  }

  type Passwords = map<string, string>

  predicate Chosen(q: Query, user: string) {
    q.whereColumns == [] || user == GetString(q.whereValues, 0)
  }

  function RowUsers(rows: seq<Server>): set<string> {
    set i | 0 <= i < |rows| :: rows[i].user
  }

  function RowPasswords(rows: seq<Server>): Passwords {
    if rows == [] then map[] else RowPasswords(rows[..|rows| - 1])[rows[|rows| - 1].user := rows[|rows| - 1].password]
  }

  /** What a statement does to the passwords. */
  function PasswordsAfter(m: Passwords, s: Statement): Passwords {
    match s
    case InsertStmt(q) => m + (match InsertRows(q) case Ok(rows) => RowPasswords(rows) case Err(_) => map[])
    case UpdateStmt(q) => map u | u in m :: if Chosen(q, u) then Pick(q.columns, LPASSWORD, q.values, "") else m[u]
    case DeleteStmt(q) => map u | u in m && !Chosen(q, u) :: m[u]
  }

  /** The users of the table with what their passwords decrypt to. */
  ghost predicate Represents(c: Cipher, t: Table, m: Passwords) {
    && m.Keys == RowUsers(t.servers)
    && forall i :: 0 <= i < |t.servers| ==>
         t.servers[i].user in m && c.open(t.key, t.servers[i].password) == Some(m[t.servers[i].user])
  }

  /** Under ByUser, being picked depends on the name alone. */
  lemma PicksChosen(q: Query, s: Server)
    requires ByUser(q)
    ensures Picks(q.whereColumns, q.whereValues, s) <==> Chosen(q, s.user)
  {
    if q.whereColumns != [] {
      assert LastKnown(q.whereColumns) == Some(0);
    }
  }

  lemma {:induction false} RowPasswordsAre(rows: seq<Server>)
    requires Unique(rows)
    ensures RowPasswords(rows).Keys == RowUsers(rows)
    ensures forall i :: 0 <= i < |rows| ==>
              rows[i].user in RowPasswords(rows) && RowPasswords(rows)[rows[i].user] == rows[i].password
  {
    if rows != [] {
      var n := |rows| - 1;
      var rest, m := rows[..n], RowPasswords(rows[..n]);
      RowPasswordsAre(rest);
      RowUsersMore(rest, rows[n]);
      assert rest + [rows[n]] == rows;
      hide RowUsers, RowPasswords;
      assert RowPasswords(rows) == m[rows[n].user := rows[n].password] by { RowPasswordsMore(rows); }
      forall i | 0 <= i < |rows|
        ensures rows[i].user in RowPasswords(rows) && RowPasswords(rows)[rows[i].user] == rows[i].password
      {
        if i < n {
          assert rest[i] == rows[i];
        }
      }
    }
  }

  lemma RowPasswordsMore(rows: seq<Server>)
    requires rows != []
    ensures var n := |rows| - 1; RowPasswords(rows) == RowPasswords(rows[..n])[rows[n].user := rows[n].password]
  {
  }

  lemma RowUsersMore(rows: seq<Server>, row: Server)
    ensures RowUsers(rows + [row]) == RowUsers(rows) + {row.user}
  {
    var all := rows + [row];
    assert forall i :: 0 <= i < |rows| ==> all[i] == rows[i];
    assert all[|rows|] == row;
  }

  lemma ExtendedUnique(c: Cipher, key: string, ss: seq<Server>, rows: seq<Server>, after: seq<Server>)
    requires Unique(ss) && NewUsers(ss, rows) && Extended(c, key, ss, rows, after)
    ensures Unique(after)
    ensures RowUsers(after) == RowUsers(ss) + RowUsers(rows) && RowUsers(ss) !! RowUsers(rows)
  {
    forall i, j | 0 <= i < |ss| && 0 <= j < |rows|
      ensures ss[i].user != rows[j].user
    {
      assert !HasUser(ss, rows[j].user);
    }
    assert forall i :: 0 <= i < |rows| ==> EncryptedRow(c, key, rows[i], after[|ss| + i]);
    assert forall i :: |ss| <= i < |after| ==> after[i].user == rows[i - |ss|].user;
    forall u | u in RowUsers(rows)
      ensures u in RowUsers(after)
    {
      var i :| 0 <= i < |rows| && rows[i].user == u;
      assert after[|ss| + i].user == u;
    }
    forall u | u in RowUsers(ss)
      ensures u in RowUsers(after)
    {
      var i :| 0 <= i < |ss| && ss[i].user == u;
      assert after[i].user == u;
    }
  }

  lemma InsertRefines(c: Cipher, t: Table, q: Query, t': Table, m: Passwords)
    requires Unique(t.servers) && Represents(c, t, m) && Inserted(c, t, q, t')
    ensures Unique(t'.servers) && Represents(c, t', PasswordsAfter(m, InsertStmt(q)))
  {
    var ss, rows, after := t.servers, InsertRows(q).value, t'.servers;
    RowPasswordsAre(rows);
    ExtendedUnique(c, t.key, ss, rows, after);
    hide InsertRows, RowPasswords, Pick, Unique, HasUser, RowUsers;
    var m' := m + RowPasswords(rows);
    forall i | 0 <= i < |after|
      ensures after[i].user in m' && c.open(t.key, after[i].password) == Some(m'[after[i].user])
    {
      if i < |ss| {
        assert ss[i].user !in RowUsers(rows);
      } else {
        assert EncryptedRow(c, t.key, rows[i - |ss|], after[|ss| + (i - |ss|)]);
      }
    }
  }

  lemma PasswordColumns(columns: seq<string>, values: seq<string>, s: Server)
    requires PasswordOnly(columns) && |columns| <= |values|
    ensures AllKnown(columns) && Defaulted(columns) == columns
    ensures Fill(columns, values, s) == Ok(Server(s.user, Pick(columns, LPASSWORD, values, "")))
  {
    FillIs(columns, values, s);
    NamesDiffer();
    assert ToLower(columns[|columns| - 1]) == LPASSWORD;
  }

  lemma UpdateRefines(c: Cipher, t: Table, q: Query, t': Table, m: Passwords)
    requires Unique(t.servers) && Represents(c, t, m) && Updated(c, t, q, t') && Simple(UpdateStmt(q))
    ensures Unique(t'.servers) && Represents(c, t', PasswordsAfter(m, UpdateStmt(q)))
  {
    var ss, after := t.servers, t'.servers;
    hide Pick, Picks, Chosen, Selected, Fill, AllKnown, ToLower, PasswordsAfter, Updated, Simple;
    UpdateKeepsUsers(m, q);
    UpdateKeepsShape(c, t, q, t');
    forall i | 0 <= i < |ss|
      ensures after[i].user == ss[i].user && ss[i].user in m
      ensures c.open(t.key, after[i].password) == Some(PasswordsAfter(m, UpdateStmt(q))[ss[i].user])
    {
      RowRefines(c, t, q, t', m, i);
    }
    assert RowUsers(after) == RowUsers(ss);
  }

  lemma UpdateKeepsShape(c: Cipher, t: Table, q: Query, t': Table)
    requires Updated(c, t, q, t')
    ensures |t'.servers| == |t.servers| && t'.key == t.key
  {
    hide Picks, Fill;
  }

  lemma UpdateKeepsUsers(m: Passwords, q: Query)
    ensures PasswordsAfter(m, UpdateStmt(q)).Keys == m.Keys
  {
    hide Pick, Chosen;
  }

  lemma RowRefines(c: Cipher, t: Table, q: Query, t': Table, m: Passwords, i: nat)
    requires Represents(c, t, m) && Updated(c, t, q, t') && Simple(UpdateStmt(q)) && i < |t.servers|
    ensures t'.servers[i].user == t.servers[i].user && t.servers[i].user in PasswordsAfter(m, UpdateStmt(q))
    ensures c.open(t.key, t'.servers[i].password) == Some(PasswordsAfter(m, UpdateStmt(q))[t.servers[i].user])
  {
    PicksChosen(q, t.servers[i]);
    PasswordColumns(q.columns, q.values, t.servers[i]);
    hide Pick, Picks, Chosen, Selected, Fill, AllKnown, ToLower;
  }

  lemma DeleteRefines(c: Cipher, t: Table, q: Query, t': Table, m: Passwords)
    requires Unique(t.servers) && Represents(c, t, m) && Deleted(t, q, t') && Simple(DeleteStmt(q))
    ensures Unique(t'.servers) && Represents(c, t', PasswordsAfter(m, DeleteStmt(q)))
  {
    var ss, rows := t.servers, PickedRows(t, q);
    var stays := (s: Server) => !HasUser(rows, s.user);
    var after := Filter(stays, ss);
    FilterUnique(stays, ss);
    FilterMembers(stays, ss);
    hide Picks, Chosen, HasUser, Filter;
    forall i | 0 <= i < |ss|
      ensures HasUser(rows, ss[i].user) <==> Chosen(q, ss[i].user)
    {
      SelectedByName(s => Picks(q.whereColumns, q.whereValues, s), ss, i);
      PicksChosen(q, ss[i]);
    }
    StayersRepresent(c, t, m, after, stays, PasswordsAfter(m, DeleteStmt(q)));
  }

  lemma StayersRepresent(c: Cipher, t: Table, m: Passwords, after: seq<Server>, stays: Server -> bool, m': Passwords)
    requires Represents(c, t, m)
    requires forall s :: s in after <==> s in t.servers && stays(s)
    requires forall u :: u in m' ==> u in m && m'[u] == m[u]
    requires forall i :: 0 <= i < |t.servers| ==> (t.servers[i].user in m' <==> stays(t.servers[i]))
    ensures Represents(c, Table(after, t.key), m')
  {
    forall i | 0 <= i < |after|
      ensures after[i].user in m' && c.open(t.key, after[i].password) == Some(m'[after[i].user])
    {
      assert after[i] in t.servers;
    }
    forall u | u in m'
      ensures u in RowUsers(after)
    {
      var i :| 0 <= i < |t.servers| && t.servers[i].user == u;
      assert t.servers[i] in after;
      var j :| 0 <= j < |after| && after[j] == t.servers[i];
    }
  }

  /** A statement is possible exactly when it is on the map of passwords. */
  predicate MapAccepts(m: Passwords, s: Statement) {
    match s
    case InsertStmt(q) =>
      InsertRows(q).Ok? && Unique(InsertRows(q).value) && RowUsers(InsertRows(q).value) !! m.Keys
    case UpdateStmt(q) => |q.columns| <= |q.values| && exists u :: u in m && Chosen(q, u)
    case DeleteStmt(q) => exists u :: u in m && Chosen(q, u)
  }

  lemma SomePicked(t: Table, q: Query, c: Cipher, m: Passwords)
    requires Represents(c, t, m) && ByUser(q)
    ensures PickedRows(t, q) != [] <==> exists u :: u in m && Chosen(q, u)
  {
    var ss := t.servers;
    var f := (s: Server) => Picks(q.whereColumns, q.whereValues, s);
    FilterMembers(f, ss);
    hide Picks, Chosen, Filter;
    if PickedRows(t, q) != [] {
      var s := PickedRows(t, q)[0];
      assert s in PickedRows(t, q);
      PicksChosen(q, s);
      var i :| 0 <= i < |ss| && ss[i] == s;
      assert s.user in m;
    }
    if exists u :: u in m && Chosen(q, u) {
      var u :| u in m && Chosen(q, u);
      assert u in RowUsers(ss);
      var i :| 0 <= i < |ss| && ss[i].user == u;
      PicksChosen(q, ss[i]);
      assert ss[i] in PickedRows(t, q);
    }
  }

  lemma AcceptsIffMapDoes(c: Cipher, t: Table, m: Passwords, s: Statement)
    requires Represents(c, t, m) && Simple(s)
    ensures CanAccept(t, s) <==> MapAccepts(m, s)
  {
    match s
    case InsertStmt(q) =>
      if InsertRows(q).Ok? {
        var rows := InsertRows(q).value;
        hide InsertRows;
        assert forall i :: 0 <= i < |rows| ==> rows[i].user in RowUsers(rows);
        assert forall u :: HasUser(t.servers, u) <==> u in RowUsers(t.servers);
      }
    case UpdateStmt(q) =>
      SomePicked(t, q, c, m);
      hide PickedRows, Chosen;
      NamesDiffer();
    case DeleteStmt(q) =>
      SomePicked(t, q, c, m);
      hide PickedRows, Chosen;
  }

  /** A statement in a run, and whether it was carried out; one that was not left the table as it was. */
  datatype Done = Done(statement: Statement, accepted: bool)

  ghost predicate Follows(c: Cipher, t: Table, d: Done, t': Table) {
    if d.accepted then Accepted(c, t, d.statement, t') else t' == t
  }

  function PasswordsAfterAll(m: Passwords, run: seq<Done>): Passwords {
    if run == [] then m
    else
      var before, last := PasswordsAfterAll(m, run[..|run| - 1]), run[|run| - 1];
      if last.accepted then PasswordsAfter(before, last.statement) else before
  }

  /**
   * Over every run of inserts, deletes and password updates, by user or on all rows: names stay unique, and decrypting
   * each row gives the password that a plain map from users to passwords has after the same statements.
   */
  lemma {:induction false} TableRefinesMap(c: Cipher, tables: seq<Table>, run: seq<Done>, m: Passwords)
    requires |tables| == |run| + 1
    requires forall i :: 0 <= i < |run| ==> Simple(run[i].statement) && Follows(c, tables[i], run[i], tables[i + 1])
    requires Unique(tables[0].servers) && Represents(c, tables[0], m)
    ensures
      var t := tables[|run|];
      Unique(t.servers) && Represents(c, t, PasswordsAfterAll(m, run))
  {
    hide Represents, Unique, PasswordsAfter, Inserted, Updated, Deleted;
    if run != [] {
      var n := |run| - 1;
      TableRefinesMap(c, tables[..n + 1], run[..n], m);
      assert Follows(c, tables[n], run[n], tables[n + 1]);
      var m' := PasswordsAfterAll(m, run[..n]);
      if run[n].accepted {
        match run[n].statement
        case InsertStmt(q) => InsertRefines(c, tables[n], q, tables[n + 1], m');
        case UpdateStmt(q) => UpdateRefines(c, tables[n], q, tables[n + 1], m');
        case DeleteStmt(q) => DeleteRefines(c, tables[n], q, tables[n + 1], m');
      }
    }
  }

  /** Then the rebuilt index agrees with linear search, and leads each user of the map to a row with its password. */
  lemma IndexedPassword(c: Cipher, t: Table, m: Passwords, user: string)
    requires Unique(t.servers) && Represents(c, t, m)
    ensures user in IndexOf(t.servers) <==> user in m
    ensures user in m ==>
              var i := IndexOf(t.servers)[user];
              && i < |t.servers| && Search(t.servers, user) == Some(i)
              && t.servers[i].user == user && c.open(t.key, t.servers[i].password) == Some(m[user])
  {
    IndexIsSearchIff(t.servers);
    IndexIsLast(t.servers);
    if user in m {
      assert user in RowUsers(t.servers);
      var i :| 0 <= i < |t.servers| && t.servers[i].user == user;
    }
    if user in IndexOf(t.servers) {
      assert t.servers[IndexOf(t.servers)[user]].user == user;
    }
  }

  /**
   * From the syntax tree to the map: a statement that sets the password of one user, its condition in any parentheses
   * and its parts in any order, does so.
   */
  lemma ParsedPasswordUpdate(parts: seq<Node>, column: string, password: string, name: string, user: string,
                             m: Passwords)
    requires Regular(parts) && PartColumns(parts) == [column] && PartValues(parts) == [password]
    requires PartComparisons(parts) == [Comparison(name, EQ, user)]
    requires SpellsPassword(column) && SpellsUser(name)
    ensures
      var s := UpdateStmt(VisitAll(Query("", "", [], [], "", [], [], NoOp), parts));
      && Simple(s) && (MapAccepts(m, s) <==> user in m)
      && (user in m ==> PasswordsAfter(m, s) == m[user := password])
  {
    var q0 := Query("", "", [], [], "", [], [], NoOp);
    VisitParts(q0, parts);
    NamesAre(column);
    NamesAre(name);
    hide ToLower, Regular, VisitAll, PartColumns, PartValues, PartComparisons;
    var q := VisitAll(q0, parts);
    var cs := [Comparison(name, EQ, user)];
    assert ColumnsOf(cs) == [name] && ValuesOf(cs) == [user];
    assert q.columns == [column] && q.values == [password] && q.whereColumns == [name] && q.whereValues == [user];
    assert Chosen(q, user);
    assert Pick(q.columns, LPASSWORD, q.values, "") == password;
  }

  /** A parsed DELETE of one user takes that user out. */
  lemma ParsedDelete(parts: seq<Node>, name: string, user: string, m: Passwords)
    requires Regular(parts) && PartComparisons(parts) == [Comparison(name, EQ, user)] && SpellsUser(name)
    ensures
      var s := DeleteStmt(VisitAll(Query("", "", [], [], "", [], [], NoOp), parts));
      && Simple(s) && (MapAccepts(m, s) <==> user in m)
      && PasswordsAfter(m, s) == m - {user}
  {
    var q0 := Query("", "", [], [], "", [], [], NoOp);
    VisitParts(q0, parts);
    NamesAre(name);
    hide ToLower, Regular, VisitAll, PartColumns, PartValues, PartComparisons;
    var cs := [Comparison(name, EQ, user)];
    assert ColumnsOf(cs) == [name] && ValuesOf(cs) == [user];
    var q := VisitAll(q0, parts);
    assert q.whereColumns == [name] && q.whereValues == [user];
    assert Chosen(q, user);
  }

  /** Users at even places, none of them in `m` or twice. */
  ghost predicate NewPairs(m: Passwords, values: seq<string>) {
    && (forall i :: 0 <= 2 * i < |values| ==> values[2 * i] !in m)
    && forall i, j :: 0 <= 2 * i < 2 * j < |values| ==> values[2 * i] != values[2 * j]
  }

  /** `m`, and each user with the password behind it. */
  ghost predicate WithPairs(m: Passwords, values: seq<string>, m': Passwords) {
    && (forall u :: u in m' ==> u in m || exists i :: 0 <= 2 * i < |values| && u == values[2 * i])
    && (forall u :: u in m ==> u in m' && m'[u] == m[u])
    && forall i :: 0 <= 2 * i < |values| - 1 ==> values[2 * i] in m' && m'[values[2 * i]] == values[2 * i + 1]
  }

  /**
   * A parsed INSERT of pairs of a user and a password, with both columns named in this order or with none: it is
   * possible exactly when the users are new and distinct, and adds each with its password.
   */
  lemma ParsedInsert(parts: seq<Node>, m: Passwords)
    requires Regular(parts) && |PartValues(parts)| % 2 == 0
    requires
      var columns := PartColumns(parts);
      columns == [] || (|columns| == 2 && SpellsUser(columns[0]) && SpellsPassword(columns[1]))
    ensures
      var s := InsertStmt(VisitAll(Query("", "", [], [], "", [], [], NoOp), parts));
      && Simple(s) && (MapAccepts(m, s) <==> NewPairs(m, PartValues(parts)))
      && (MapAccepts(m, s) ==> WithPairs(m, PartValues(parts), PasswordsAfter(m, s)))
  {
    var q0 := Query("", "", [], [], "", [], [], NoOp);
    VisitParts(q0, parts);
    hide Regular, VisitAll, PartColumns, PartValues, PartComparisons;
    var q := VisitAll(q0, parts);
    var values := PartValues(parts);
    assert q.columns == PartColumns(parts) && q.values == values;
    InsertsPairs(q);
    PairsAreNew(InsertRows(q).value, values, m);
    hide InsertRows, Unique, RowUsers, RowPasswords, NewPairs, WithPairs, ArePairs;
    if NewPairs(m, values) {
      PairsAdded(InsertRows(q).value, values, m);
    }
  }

  /** The rows of an INSERT of users with their passwords. */
  lemma InsertsPairs(q: Query)
    requires |q.values| % 2 == 0
    requires q.columns == [] || (|q.columns| == 2 && SpellsUser(q.columns[0]) && SpellsPassword(q.columns[1]))
    ensures InsertRows(q).Ok? && ArePairs(q.values, InsertRows(q).value)
  {
    if q.columns == [] {
      DefaultColumns(q.values);
    } else {
      RowsGive(q.columns, q.values);
      hide Rows, Gives, SpellsUser, SpellsPassword;
      assert AllNamed(q.columns);
      var rows := Rows(q.columns, q.values).value;
      forall i | 0 <= i < |rows|
        ensures rows[i] == Server(q.values[2 * i], q.values[2 * i + 1])
      {
        assert RowGives(q.columns, q.values, i, rows[i]);
        GivesPair(q.columns, q.values[2 * i..2 * i + 2], rows[i]);
      }
    }
  }

  predicate ArePairs(values: seq<string>, rows: seq<Server>) {
    && |values| == 2 * |rows|
    && forall i :: 0 <= i < |rows| ==> rows[i] == Server(values[2 * i], values[2 * i + 1])
  }

  lemma PairsAreNew(rows: seq<Server>, values: seq<string>, m: Passwords)
    requires ArePairs(values, rows)
    ensures Unique(rows) && RowUsers(rows) !! m.Keys <==> NewPairs(m, values)
  {
    assert forall i :: 0 <= i < |rows| ==> rows[i].user == values[2 * i] && rows[i].user in RowUsers(rows);
    if NewPairs(m, values) {
      assert forall i, j :: 0 <= i < j < |rows| ==> values[2 * i] != values[2 * j];
      assert forall u :: u in RowUsers(rows) ==> u !in m;
    }
    if Unique(rows) && RowUsers(rows) !! m.Keys {
      forall i | 0 <= 2 * i < |values|
        ensures values[2 * i] !in m
      {
        assert rows[i].user !in m.Keys;
      }
      forall i, j | 0 <= 2 * i < 2 * j < |values|
        ensures values[2 * i] != values[2 * j]
      {
        assert rows[i].user != rows[j].user;
      }
    }
  }

  lemma PairsAdded(rows: seq<Server>, values: seq<string>, m: Passwords)
    requires ArePairs(values, rows) && Unique(rows) && RowUsers(rows) !! m.Keys
    ensures WithPairs(m, values, m + RowPasswords(rows))
  {
    RowPasswordsAre(rows);
    hide RowPasswords, Unique;
    var m' := m + RowPasswords(rows);
    forall u | u in m' && u !in m
      ensures exists i :: 0 <= 2 * i < |values| && u == values[2 * i]
    {
      var i :| 0 <= i < |rows| && rows[i].user == u;
      assert u == values[2 * i];
    }
    forall i | 0 <= 2 * i < |values| - 1
      ensures values[2 * i] in m' && m'[values[2 * i]] == values[2 * i + 1]
    {
      assert rows[i] == Server(values[2 * i], values[2 * i + 1]);
    }
  }

  /** What is stored stands for the passwords `m`; without a table that can be read it is the admin's alone. */
  ghost predicate StandsFor(c: Cipher, stored: Store, m: Passwords) {
    match stored
    case Stored(t) => t.key != "" && Unique(t.servers) && Represents(c, t, m)
    case _ => m == map["admin" := "pass"]
  }

  lemma UniqueIsUnshadowed(t: Table, q: Query)
    requires Unique(t.servers)
    ensures Unshadowed(t, q) && Traceable(t, q)
  {
  }

  lemma AcceptedRefines(c: Cipher, t: Table, s: Statement, t': Table, m: Passwords)
    requires Unique(t.servers) && Represents(c, t, m) && t.key != "" && Simple(s) && Accepted(c, t, s, t')
    ensures StandsFor(c, Stored(t'), PasswordsAfter(m, s)) && CanAccept(t, s)
  {
    hide Represents, Unique, PasswordsAfter;
    match s
    case InsertStmt(q) => InsertRefines(c, t, q, t', m);
    case UpdateStmt(q) => UpdateRefines(c, t, q, t', m);
    case DeleteStmt(q) => DeleteRefines(c, t, q, t', m);
  }

  /** The statements that have been carried out, of which those without an error were accepted. */
  function RunOf(stmts: seq<Statement>, errors: seq<Option<TableError>>): seq<Done>
    requires |errors| <= |stmts|
  {
    seq(|errors|, i requires 0 <= i < |errors| => Done(stmts[i], errors[i] == None))
  }

  /** The passwords after a list of statements, of which those that are not possible change nothing. */
  function PasswordsOfAll(m: Passwords, stmts: seq<Statement>): Passwords {
    if stmts == [] then m
    else
      var before, last := PasswordsOfAll(m, stmts[..|stmts| - 1]), stmts[|stmts| - 1];
      if MapAccepts(before, last) then PasswordsAfter(before, last) else before
  }

  lemma NoStatements(m: Passwords, stmts: seq<Statement>)
    ensures PasswordsAfterAll(m, RunOf(stmts, [])) == PasswordsOfAll(m, stmts[..0]) == m
  {
  }

  lemma OneMoreStatement(m: Passwords, stmts: seq<Statement>, errors: seq<Option<TableError>>,
                         error: Option<TableError>)
    requires |errors| < |stmts|
    ensures
      var (s, before) := (stmts[|errors|], PasswordsAfterAll(m, RunOf(stmts, errors)));
      PasswordsAfterAll(m, RunOf(stmts, errors + [error])) ==
      if error == None then PasswordsAfter(before, s) else before
    ensures
      var (s, before) := (stmts[|errors|], PasswordsOfAll(m, stmts[..|errors|]));
      PasswordsOfAll(m, stmts[..|errors| + 1]) == if MapAccepts(before, s) then PasswordsAfter(before, s) else before
  {
    hide PasswordsAfter, MapAccepts;
    var i := |errors|;
    var run, last := RunOf(stmts, errors), Done(stmts[i], error == None);
    assert RunOf(stmts, errors + [error]) == run + [last];
    assert (run + [last])[..i] == run;
    assert stmts[..i + 1][..i] == stmts[..i];
  }
}
