/** The user table of src/users.c and its listing in src/manager/manager_handler.c. */
module Users {
  import opened Text

  const MAX_USERS := 1024
  const MAX_LENGTH := 32
  const UDP_BUFFER_SIZE := 1024

  /** Two character arrays, next to each other in memory. */
  datatype User = User(name: string, pass: string)

  /** `strncpy` into an array of MAX_LENGTH characters: padded with NULs, without one if it is full. */
  function Field(s: string): (f: string)
    ensures |f| == MAX_LENGTH
  {
    if |s| < MAX_LENGTH then s + seq(MAX_LENGTH - |s|, _ => '\0') else s[..MAX_LENGTH]
  }

  /** The memory from entry i to the end of the table. */
  function Memory(us: seq<User>, i: nat): string
    decreases |us| - i
  {
    if i >= |us| then "" else us[i].name + us[i].pass + Memory(us, i + 1)
  }

  /** The strings that `strcmp` sees at entry i. */
  function NameAt(us: seq<User>, i: nat): string {
    CStr(Memory(us, i))
  }

  function PassAt(us: seq<User>, i: nat): string
    requires i < |us|
  {
    CStr(us[i].pass + Memory(us, i + 1))
  }

  function NameOf(u: User): string {
    CStr(u.name)
  }

  function PassOf(u: User): string {
    CStr(u.pass)
  }

  /** An entry whose two strings end inside their arrays. */
  ghost predicate Terminated(u: User) {
    && u.name == Field(NameOf(u)) && u.pass == Field(PassOf(u))
    && |NameOf(u)| < MAX_LENGTH && |PassOf(u)| < MAX_LENGTH
  }

  lemma {:induction false} CStrIgnoresTail(s: string, t: string)
    requires |CStr(s)| < |s|
    ensures CStr(s + t) == CStr(s)
  {
    if s[0] != '\0' {
      assert (s + t)[1..] == s[1..] + t;
      CStrIgnoresTail(s[1..], t);
    }
  }

  lemma {:induction false} CStrOfField(s: string)
    requires '\0' !in s && |s| < MAX_LENGTH
    ensures CStr(Field(s)) == s
  {
    CStrUpToNul(s, seq(MAX_LENGTH - |s|, _ => '\0'));
  }

  lemma {:induction false} CStrUpToNul(s: string, t: string)
    requires '\0' !in s && t != "" && t[0] == '\0'
    ensures CStr(s + t) == s
  {
    if s != "" {
      assert (s + t)[1..] == s[1..] + t;
      CStrUpToNul(s[1..], t);
    }
  }

  lemma {:induction false} ReadsOwnStrings(us: seq<User>, i: nat)
    requires i < |us| && Terminated(us[i])
    ensures NameAt(us, i) == NameOf(us[i]) && PassAt(us, i) == PassOf(us[i])
  {
    CStrIgnoresTail(us[i].name, us[i].pass + Memory(us, i + 1));
    assert us[i].name + us[i].pass + Memory(us, i + 1) == us[i].name + (us[i].pass + Memory(us, i + 1));
    CStrIgnoresTail(us[i].pass, Memory(us, i + 1));
  }

  /**
   * `user_add` admits a name and a password of exactly MAX_LENGTH, which then have no NUL: the name is read on into the
   * password, the password into the next entry.
   */
  lemma {:induction false} StoredEntryReads(us: seq<User>, i: nat, name: string, pass: string)
    requires i < |us| && '\0' !in name && '\0' !in pass && |name| <= MAX_LENGTH && |pass| <= MAX_LENGTH
    requires us[i] == User(Field(name), Field(pass))
    ensures PassAt(us, i) == if |pass| < MAX_LENGTH then pass else pass + NameAt(us, i + 1)
    ensures NameAt(us, i) == if |name| < MAX_LENGTH then name else name + PassAt(us, i)
  {
    hide CStr, Memory, NameAt, PassAt;
    var rest := us[i].pass + Memory(us, i + 1);
    ReadsOn(us, i);
    if |name| < MAX_LENGTH {
      CStrOfField(name);
      CStrIgnoresTail(Field(name), rest);
    } else {
      assert name[..MAX_LENGTH] == name;
      CStrPassesOver(name, rest);
    }
    if |pass| < MAX_LENGTH {
      CStrOfField(pass);
      CStrIgnoresTail(Field(pass), Memory(us, i + 1));
    } else {
      assert pass[..MAX_LENGTH] == pass;
      CStrPassesOver(pass, Memory(us, i + 1));
    }
  }

  /**
   * So a stored name is found again if and only if it is shorter, a password also if the next entry's name is empty.
   */
  lemma {:induction false} StoredNameIsFound(us: seq<User>, i: nat, name: string, pass: string)
    requires i < |us| && '\0' !in name && '\0' !in pass && pass != "" && |name| <= MAX_LENGTH && |pass| <= MAX_LENGTH
    requires us[i] == User(Field(name), Field(pass))
    ensures NameAt(us, i) == name <==> |name| < MAX_LENGTH
    ensures PassAt(us, i) == pass <==> |pass| < MAX_LENGTH || NameAt(us, i + 1) == ""
  {
    hide NameAt, PassAt, Field;
    StoredEntryReads(us, i, name, pass);
  }

  lemma {:induction false} ReadsOn(us: seq<User>, i: nat)
    requires i < |us|
    ensures NameAt(us, i) == CStr(us[i].name + (us[i].pass + Memory(us, i + 1)))
    ensures PassAt(us, i) == CStr(us[i].pass + Memory(us, i + 1))
    ensures NameAt(us, i + 1) == CStr(Memory(us, i + 1))
  {
    assert us[i].name + us[i].pass + Memory(us, i + 1) == us[i].name + (us[i].pass + Memory(us, i + 1));
  }

  lemma {:induction false} CStrPassesOver(s: string, t: string)
    requires '\0' !in s
    ensures CStr(s + t) == s + CStr(t)
  {
    if s == "" {
      assert s + t == t;
    } else {
      assert (s + t)[1..] == s[1..] + t;
      CStrPassesOver(s[1..], t);
    }
  }

  /** `strtok` on ":": the non-empty pieces. */
  function Tokens(s: string): (r: seq<string>)
    ensures forall t :: t in r ==> t != "" && (forall c :: c in t ==> c in s)
    decreases |s|
  {
    if s == "" then []
    else if s[0] == ':' then Tokens(s[1..])
    else [s[..Upto(s)]] + Tokens(s[Upto(s)..])
  }

  function Upto(s: string): (i: nat)
    ensures i <= |s| && (s != "" && s[0] != ':' ==> i > 0)
  {
    if s == "" || s[0] == ':' then 0 else 1 + Upto(s[1..])
  }

  /** A piece without a colon is one token; colons separate. */
  lemma {:induction false} TokensOne(s: string)
    requires ':' !in s && s != ""
    ensures Tokens(s) == [s]
  {
    UptoEnd(s);
    assert s[..|s|] == s && s[|s|..] == "";
  }

  lemma {:induction false} UptoEnd(s: string)
    requires ':' !in s
    ensures Upto(s) == |s|
  {
    if s != "" {
      assert s[0] in s;
      UptoEnd(s[1..]);
    }
  }

  lemma {:induction false} UptoColon(s: string, t: string)
    ensures Upto(s + (":" + t)) == Upto(s) <= |s|
  {
    if s == "" {
      assert s + (":" + t) == ":" + t;
    } else if s[0] != ':' {
      assert (s + (":" + t))[1..] == s[1..] + (":" + t);
      UptoColon(s[1..], t);
    }
  }

  /** The tokens on either side of a colon, whatever else is there. */
  lemma {:induction false} TokensJoin(s: string, t: string)
    ensures Tokens(s + (":" + t)) == Tokens(s) + Tokens(t)
    decreases |s|
  {
    var all := s + (":" + t);
    if s == "" {
      assert all == ":" + t && all[1..] == t;
    } else if s[0] == ':' {
      assert all[1..] == s[1..] + (":" + t);
      TokensJoin(s[1..], t);
    } else {
      var i := Upto(s);
      UptoColon(s, t);
      assert all[..i] == s[..i] && all[i..] == s[i..] + (":" + t);
      TokensJoin(s[i..], t);
    }
  }

  /** What `user_add` is given: the name, a colon, the password. */
  lemma {:induction false} TokensOfPair(name: string, pass: string)
    requires name != "" && pass != "" && ':' !in name && ':' !in pass
    ensures Tokens(name + (":" + pass)) == [name, pass]
  {
    TokensJoin(name, pass);
    TokensOne(name);
    TokensOne(pass);
  }

  lemma {:induction false} FieldsRead(name: string, pass: string)
    requires '\0' !in name && '\0' !in pass && |name| < MAX_LENGTH && |pass| < MAX_LENGTH
    ensures var u := User(Field(name), Field(pass)); Terminated(u) && NameOf(u) == name && PassOf(u) == pass
  {
    CStrOfField(name);
    CStrOfField(pass);
  }

  /** The table as a map from names to passwords. */
  ghost function MapOf(us: seq<User>): map<string, string>
    decreases |us|
  {
    if us == [] then map[] else
    var last := us[|us| - 1];
    MapOf(us[..|us| - 1])[NameOf(last) := PassOf(last)]
  }

  /** The pairs that a login may give, the first n entries being used. */
  ghost function Accounts(us: seq<User>, n: nat): set<(string, string)>
    requires n <= |us|
  {
    set i | 0 <= i < n :: (NameAt(us, i), PassAt(us, i))
  }

  /** One of the first n entries is found under this name. */
  ghost predicate Held(us: seq<User>, n: nat, name: string) {
    exists i :: 0 <= i < n && NameAt(us, i) == name
  }

  /** Among the first n entries the last takes the place of entry pos, as far as `strncpy` can read it. */
  ghost function Moved(us: seq<User>, n: nat, pos: nat): seq<User>
    requires pos < n <= |us|
  {
    if pos == n - 1 then us[..n - 1]
    else us[..n - 1][pos := User(Field(NameAt(us, n - 1)), Field(PassAt(us, n - 1)))]
  }

  /** All entries readable, no name twice. */
  ghost predicate Proper(us: seq<User>) {
    && (forall i :: 0 <= i < |us| ==> Terminated(us[i]))
    && (forall i, j :: 0 <= i < j < |us| ==> NameOf(us[i]) != NameOf(us[j]))
  }

  lemma {:induction false} MapLookup(us: seq<User>)
    requires Proper(us)
    ensures forall i :: 0 <= i < |us| ==> NameOf(us[i]) in MapOf(us) && MapOf(us)[NameOf(us[i])] == PassOf(us[i])
    ensures forall name :: name in MapOf(us) ==> exists i :: 0 <= i < |us| && NameOf(us[i]) == name
    decreases |us|
  {
    hide NameOf, PassOf, Terminated;
    if us != [] {
      var n := |us| - 1;
      MapLookup(us[..n]);
      forall name | name in MapOf(us) ensures exists i :: 0 <= i < |us| && NameOf(us[i]) == name {
        if name == NameOf(us[n]) {
        } else {
          var i :| 0 <= i < n && NameOf(us[..n][i]) == name;
          assert us[..n][i] == us[i];
        }
      }
      forall i | 0 <= i < |us| ensures NameOf(us[i]) in MapOf(us) && MapOf(us)[NameOf(us[i])] == PassOf(us[i]) {
        if i < n {
          assert us[..n][i] == us[i];
        }
      }
    }
  }

  class UserTable {
    const users: array<User>
    var count: nat

    ghost function Entries(): seq<User>
      requires count <= users.Length
      reads this, users
    {
      users[..count]
    }

    ghost predicate Valid()
      reads this
    {
      users.Length == MAX_USERS && count <= MAX_USERS
    }

    constructor ()
      ensures Valid() && Proper(Entries()) && MapOf(Entries()) == map[] && fresh(users)
    {
      users := new User[MAX_USERS](_ => User(Field(""), Field("")));
      count := 0;
      new;
      assert MapOf(Entries()) == map[];
    }

    /** `user_find`: the first entry found under the name; with proper entries the map says which. */
    method Find(username: string) returns (pos: int)
      requires Valid()
      ensures -1 <= pos < count
      ensures pos == -1 <==> !Held(users[..], count, username)
      ensures pos >= 0 ==> NameAt(users[..], pos) == username && !Held(users[..], pos, username)
      ensures Proper(Entries()) ==> (pos == -1 <==> username !in MapOf(Entries()))
      ensures Proper(Entries()) && pos >= 0 ==> NameOf(users[pos]) == username
    {
      hide NameOf, PassOf, Terminated, Memory, NameAt, MapOf, Proper;
      pos := 0;
      while pos < count
        invariant 0 <= pos <= count && !Held(users[..], pos, username)
      {
        if username == NameAt(users[..], pos) {
          HeldIsMapped(username);
          ReadsOwn(pos);
          return;
        }
        pos := pos + 1;
      }
      HeldIsMapped(username);
      return -1;
    }

    lemma {:induction false} HeldIsMapped(name: string)
      requires Valid()
      ensures Proper(Entries()) ==> (Held(users[..], count, name) <==> name in MapOf(Entries()))
    {
      hide NameOf, PassOf, Memory, NameAt, PassAt, MapOf, Proper;
      if Proper(Entries()) {
        MapLookup(Entries());
        forall i | 0 <= i < count ensures NameAt(users[..], i) == NameOf(Entries()[i]) {
          ReadsOwn(i);
        }
      }
    }

    lemma {:induction false} ReadsOwn(i: nat)
      requires Valid() && i < count
      ensures Proper(Entries()) ==>
                NameAt(users[..], i) == NameOf(users[i]) && PassAt(users[..], i) == PassOf(users[i])
                && Entries()[i] == users[i]
    {
      if Proper(Entries()) {
        assert Terminated(Entries()[i]) && Entries()[i] == users[i];
        ReadsOwnStrings(users[..], i);
      }
    }

    /** `user_check_valid` accepts the pairs that sessions are given; with proper entries it agrees with the map. */
    method CheckValid(username: string, password: string) returns (ok: bool)
      requires Valid()
      ensures ok <==> (username, password) in Accounts(users[..], count)
      ensures Proper(Entries()) ==> (ok <==> username in MapOf(Entries()) && MapOf(Entries())[username] == password)
    {
      hide NameOf, PassOf, Terminated, Memory, NameAt, PassAt, MapOf, Proper;
      AccountsAreMapped(username, password);
      var i := 0;
      while i < count
        invariant 0 <= i <= count && (username, password) !in Accounts(users[..], i)
      {
        if username == NameAt(users[..], i) {
          if password == PassAt(users[..], i) {
            return true;
          }
        }
        i := i + 1;
      }
      return false;
    }

    lemma {:induction false} AccountsAreMapped(name: string, pass: string)
      requires Valid()
      ensures Proper(Entries()) ==>
                ((name, pass) in Accounts(users[..], count)
                 <==> name in MapOf(Entries()) && MapOf(Entries())[name] == pass)
    {
      hide NameOf, PassOf, Memory, NameAt, PassAt, MapOf, Proper;
      if Proper(Entries()) {
        MapLookup(Entries());
        forall i | 0 <= i < count
          ensures NameAt(users[..], i) == NameOf(Entries()[i]) && PassAt(users[..], i) == PassOf(Entries()[i])
        {
          ReadsOwn(i);
        }
      }
    }

    /**
     * `user_add` for a string that strtok splits.  The table stays proper exactly if both strings are shorter than
     * their arrays; it then gains the pair as a map.
     */
    method Add(s: string) returns (code: int)
      requires Valid() && '\0' !in s
      modifies this, users
      ensures Valid()
      ensures code == if old(count) == MAX_USERS then -3
                      else if |Tokens(s)| < 2 then -2
                      else if |Tokens(s)[0]| > MAX_LENGTH then -4
                      else if |Tokens(s)[1]| > MAX_LENGTH then -5
                      else if Held(old(users[..]), old(count), Tokens(s)[0]) then -1
                      else 0
      ensures code != 0 ==> count == old(count) && users[..] == old(users[..])
      ensures users[..][count..] == old(users[..])[count..]
      ensures code == 0 ==> Entries() == old(Entries()) + [User(Field(Tokens(s)[0]), Field(Tokens(s)[1]))]
      ensures code == 0 && Proper(old(Entries())) ==>
                (Proper(Entries()) <==> |Tokens(s)[0]| < MAX_LENGTH && |Tokens(s)[1]| < MAX_LENGTH)
      ensures code == 0 && Proper(Entries()) ==>
                && Tokens(s)[0] !in MapOf(old(Entries()))
                && MapOf(Entries()) == MapOf(old(Entries()))[Tokens(s)[0] := Tokens(s)[1]]
    {
      hide Tokens, NameOf, PassOf, Terminated, MapOf, Field, Proper, NameAt;
      if count == MAX_USERS {
        return -3;
      }
      var tokens := Tokens(s);
      if |tokens| < 2 {
        return -2;
      }
      var username, password := tokens[0], tokens[1];
      if |username| > MAX_LENGTH {
        return -4;
      }
      if |password| > MAX_LENGTH {
        return -5;
      }
      var pos := Find(username);
      if pos != -1 {
        return -1;
      }
      ghost var was := Entries();
      assert username in tokens && password in tokens;
      HeldIsMapped(username);
      users[count] := User(Field(username), Field(password));
      count := count + 1;
      assert Entries() == was + [users[count - 1]];
      Grows(was, username, password);
      return 0;
    }

    /** `user_remove`: the last entry takes the place of the one found; in a proper table the map loses the name. */
    method Remove(username: string) returns (code: int)
      requires Valid()
      modifies this, users
      ensures Valid()
      ensures code == if Held(old(users[..]), old(count), username) then 0 else -1
      ensures code == -1 ==> count == old(count) && users[..] == old(users[..])
      ensures users[..][count..] == old(users[..])[count..]
      ensures code == 0 ==> exists pos :: 0 <= pos < old(count) && NameAt(old(users[..]), pos) == username
                                          && Entries() == Moved(old(users[..]), old(count), pos)
      ensures Proper(old(Entries())) ==> Proper(Entries()) && MapOf(Entries()) == MapOf(old(Entries())) - {username}
    {
      hide NameOf, PassOf, Terminated, Memory, NameAt, PassAt, MapOf, Field, Proper;
      var pos := Find(username);
      ghost var was, us, n := Entries(), users[..], count;
      if pos == -1 {
        assert Proper(was) ==> MapOf(was) - {username} == MapOf(was);
        return -1;
      }
      count := count - 1;
      if Proper(was) {
        ReadsLast(was);
        MapShrinks(was, pos);
      }
      if pos != count {
        users[pos] := User(Field(NameAt(users[..], count)), Field(PassAt(users[..], count)));
        assert Proper(was) ==> Entries() == was[..count][pos := was[count]];
      } else {
        assert Entries() == was[..count];
      }
      assert Entries() == Moved(us, n, pos);
      return 0;
    }

    lemma {:induction false} ReadsLast(was: seq<User>)
      requires count + 1 <= users.Length && was == users[..count + 1] && Proper(was)
      ensures User(Field(NameAt(users[..], count)), Field(PassAt(users[..], count))) == was[count]
    {
      assert Terminated(was[count]) && was[count] == users[count];
      ReadsOwnStrings(users[..], count);
    }
  }

  /** A new entry under a new name keeps the table proper exactly if both strings end inside their arrays. */
  lemma {:induction false} Grows(us: seq<User>, name: string, pass: string)
    requires '\0' !in name && '\0' !in pass && |name| <= MAX_LENGTH && |pass| <= MAX_LENGTH
    requires Proper(us) ==> name !in MapOf(us)
    ensures var vs := us + [User(Field(name), Field(pass))];
            && (Proper(us) ==> (Proper(vs) <==> |name| < MAX_LENGTH && |pass| < MAX_LENGTH))
            && (Proper(vs) ==> name !in MapOf(us) && MapOf(vs) == MapOf(us)[name := pass])
  {
    hide MapOf, Proper;
    var u := User(Field(name), Field(pass));
    var vs := us + [u];
    if Proper(vs) {
      ProperPrefix(us, u);
    }
    if |name| < MAX_LENGTH && |pass| < MAX_LENGTH {
      FieldsRead(name, pass);
      if Proper(us) {
        ProperGrows(us, u);
      }
    } else {
      FullFieldsRead(name, pass);
    }
  }

  lemma {:induction false} ProperPrefix(us: seq<User>, u: User)
    requires Proper(us + [u])
    ensures Proper(us) && Terminated(u)
  {
    hide NameOf, PassOf, Terminated;
    var vs := us + [u];
    assert vs[|us|] == u;
    assert forall i :: 0 <= i < |us| ==> vs[i] == us[i];
  }

  lemma {:induction false} FullFieldsRead(name: string, pass: string)
    requires '\0' !in name && '\0' !in pass && (|name| == MAX_LENGTH || |pass| == MAX_LENGTH)
    ensures !Terminated(User(Field(name), Field(pass)))
  {
    assert |name| == MAX_LENGTH ==> Field(name) == name;
    assert |pass| == MAX_LENGTH ==> Field(pass) == pass;
  }

  lemma {:induction false} ProperGrows(us: seq<User>, u: User)
    requires Proper(us) && Terminated(u) && NameOf(u) !in MapOf(us)
    ensures Proper(us + [u]) && MapOf(us + [u]) == MapOf(us)[NameOf(u) := PassOf(u)]
  {
    hide NameOf, PassOf, Terminated;
    var vs := us + [u];
    MapLookup(us);
    assert vs[..|us|] == us && vs[|us|] == u;
  }

  ghost function Swapped(us: seq<User>, pos: nat): (vs: seq<User>)
    requires pos < |us|
    ensures |vs| == |us| - 1 && forall i :: 0 <= i < |vs| ==> vs[i] == us[if i == pos then |us| - 1 else i]
  {
    var last := |us| - 1;
    if pos == last then us[..last] else us[..last][pos := us[last]]
  }

  lemma {:induction false} SwappedIsProper(us: seq<User>, pos: nat)
    requires Proper(us) && pos < |us|
    ensures Proper(Swapped(us, pos))
  {
    hide NameOf, PassOf, Terminated;
  }

  lemma {:induction false} SwappedLookup(us: seq<User>, pos: nat, name: string)
    requires Proper(us) && pos < |us| && Proper(Swapped(us, pos))
    ensures var m, w := MapOf(us), MapOf(Swapped(us, pos));
            && (name in w <==> name in m && name != NameOf(us[pos]))
            && (name in w ==> w[name] == m[name])
  {
    hide NameOf, PassOf, Terminated, MapOf, Swapped;
    var last, vs := |us| - 1, Swapped(us, pos);
    MapLookup(us);
    MapLookup(vs);
    if name in MapOf(vs) {
      var i :| 0 <= i < |vs| && NameOf(vs[i]) == name;
      var j := if i == pos then last else i;
      assert vs[i] == us[j];
      DistinctEntries(us, pos, j);
    }
    if name in MapOf(us) && name != NameOf(us[pos]) {
      var i :| 0 <= i < |us| && NameOf(us[i]) == name;
      assert vs[if i == last then pos else i] == us[i];
    }
  }

  lemma {:induction false} DistinctEntries(us: seq<User>, i: nat, j: nat)
    requires Proper(us) && i < |us| && j < |us| && i != j
    ensures NameOf(us[i]) != NameOf(us[j])
  {
    hide NameOf, PassOf, Terminated;
  }

  /** Taking the last entry into the place of a removed one removes exactly that name from the map. */
  lemma {:induction false} MapShrinks(us: seq<User>, pos: nat)
    requires Proper(us) && pos < |us|
    ensures Proper(Swapped(us, pos)) && MapOf(Swapped(us, pos)) == MapOf(us) - {NameOf(us[pos])}
  {
    hide *;
    SwappedIsProper(us, pos);
    forall name ensures
      var m, w := MapOf(us), MapOf(Swapped(us, pos));
      (name in w <==> name in m && name != NameOf(us[pos])) && (name in w ==> w[name] == m[name])
    {
      SwappedLookup(us, pos, name);
    }
  }
}
