/** The blind index on e-mail addresses: the digest (src/core/encryption/blind-index.ts), the
    callbacks that stamp it on writes (src/core/auth/user-blind-index.extension.ts) and the
    lookup through it (src/core/auth/user-blind-index.lookup.ts).

    `lower` stands for lower-casing and `digest` for the keyed hash. */
module BlindIndex {
  import opened Lists
  import opened Text

  type Fold = string -> string

  function Normalised(s: string, lower: Fold): string {
    lower(Trim(s))
  }

  /** The digest of the normalised text; none for a blank text. */
  function Compute(plaintext: string, lower: Fold, digest: Fold): Option<string> {
    var n := Normalised(plaintext, lower);
    if |n| == 0 then None else Some(digest(n))
  }

  // ------------------------------------------------------------ the callbacks

  /** What a write says about the address: nothing, a plain text, or a nested `set`, which the
      database honours but the callbacks do not recognise as a text. */
  datatype EmailArg = Absent | Plain(text: string) | SetTo(text: string)

  class WriteData {
    var email: EmailArg
    var emailHash: Option<string>

    constructor (email: EmailArg, emailHash: Option<string>)
      ensures this.email == email && this.emailHash == emailHash
    {
      this.email := email;
      this.emailHash := emailHash;
    }
  }

  /** The hash a write carries after stamping. */
  function StampedHash(email: EmailArg, given: Option<string>, lower: Fold, digest: Fold): Option<string> {
    if email.Plain? && Compute(email.text, lower, digest).Some? then Compute(email.text, lower, digest) else given
  }

  /** `create` and `update`: missing data count as empty data. */
  method StampWrite(args: WriteData?, lower: Fold, digest: Fold) returns (data: WriteData)
    modifies args
    ensures args != null ==> data == args
    ensures args == null ==> fresh(data) && data.email == Absent && data.emailHash == None
    ensures args != null ==> args.email == old(args.email)
                             && args.emailHash == StampedHash(old(args.email), old(args.emailHash), lower, digest)
  {
    if args == null {
      data := new WriteData(Absent, None);
    } else {
      data := args;
    }
    if data.email.Plain? {
      var hash := Compute(data.email.text, lower, digest);
      if hash.Some? {
        data.emailHash := hash;
      }
    }
  }

  /** `upsert`: both branches, each when it is there. */
  method StampUpsert(create: WriteData?, update: WriteData?, lower: Fold, digest: Fold)
    modifies create, update
    ensures create != null ==> create.email == old(create.email)
                               && create.emailHash == StampedHash(old(create.email), old(create.emailHash), lower, digest)
    ensures update != null ==> update.email == old(update.email)
                               && update.emailHash == StampedHash(old(update.email), old(update.emailHash), lower, digest)
  {
    if create != null && create.email.Plain? {
      var hash := Compute(create.email.text, lower, digest);
      if hash.Some? { create.emailHash := hash; }
    }
    if update != null && update.email.Plain? {
      var hash := Compute(update.email.text, lower, digest);
      if hash.Some? { update.emailHash := hash; }
    }
  }

  // ------------------------------------------------------------ the users table

  datatype User = User(email: string, emailHash: Option<string>)

  type Users = map<string, User>

  /** The write data of one branch. */
  datatype Data = Data(email: EmailArg, emailHash: Option<string>)

  datatype Write =
    | Create(id: string, data: Data)
    | Update(id: string, data: Data)
    | Upsert(id: string, create: Data, update: Data)

  /** The row a stamped create inserts; the address is mandatory and given as a text. */
  function Inserted(d: Data, lower: Fold, digest: Fold): User
    requires d.email.Plain?
  {
    User(d.email.text, StampedHash(d.email, d.emailHash, lower, digest))
  }

  /** The row after a stamped update; an absent hash leaves the column alone. */
  function Patched(u: User, d: Data, lower: Fold, digest: Fold): User {
    var hash := StampedHash(d.email, d.emailHash, lower, digest);
    User(if d.email == Absent then u.email else d.email.text, if hash.Some? then hash else u.emailHash)
  }

  function Written(users: Users, w: Write, lower: Fold, digest: Fold): Users {
    match w
    case Create(id, d) => if id in users || !d.email.Plain? then users else users[id := Inserted(d, lower, digest)]
    case Update(id, d) => if id in users then users[id := Patched(users[id], d, lower, digest)] else users
    case Upsert(id, c, u) =>
      if id in users then users[id := Patched(users[id], u, lower, digest)]
      else if !c.email.Plain? then users
      else users[id := Inserted(c, lower, digest)]
  }

  /** The stored hash is that of the stored address. */
  predicate InStep(u: User, lower: Fold, digest: Fold) {
    u.emailHash == Compute(u.email, lower, digest)
  }

  ghost predicate AllInStep(users: Users, lower: Fold, digest: Fold) {
    forall id :: id in users ==> InStep(users[id], lower, digest)
  }

  ghost predicate Injective(digest: Fold) {
    forall s, t :: digest(s) == digest(t) ==> s == t
  }

  /** With an injective digest, an update that gives no hash of its own keeps a row in step
      exactly when it says nothing about the address, gives a plain one that is not blank, or
      an address that normalises like the old one. */
  lemma UpdateKeepsStepExactlyWhen(u: User, d: Data, lower: Fold, digest: Fold)
    requires InStep(u, lower, digest) && Injective(digest) && d.emailHash == None
    ensures InStep(Patched(u, d, lower, digest), lower, digest) <==>
            || d.email == Absent
            || (d.email.Plain? && Normalised(d.email.text, lower) != [])
            || Normalised(d.email.text, lower) == Normalised(u.email, lower)
  {
  }

  lemma CreateKeepsStepExactlyWhen(d: Data, lower: Fold, digest: Fold)
    requires d.email.Plain?
    ensures InStep(Inserted(d, lower, digest), lower, digest) <==>
            Normalised(d.email.text, lower) != [] || d.emailHash == None
  {
  }

  /** A created row is in step: its address is not blank, or it gets no hash. */
  predicate CreateInStep(d: Data, lower: Fold) {
    d.email.Plain? ==> Normalised(d.email.text, lower) != [] || d.emailHash == None
  }

  /** An updated row is in step whatever it was: a plain address that is not blank, neither
      address nor hash, or a nested address together with its own hash. */
  predicate UpdateInStep(d: Data, lower: Fold, digest: Fold) {
    match d.email
    case Absent => d.emailHash == None
    case Plain(text) => Normalised(text, lower) != []
    case SetTo(text) => d.emailHash.Some? && d.emailHash == Compute(text, lower, digest)
  }

  predicate WriteInStep(w: Write, lower: Fold, digest: Fold) {
    match w
    case Create(_, d) => CreateInStep(d, lower)
    case Update(_, d) => UpdateInStep(d, lower, digest)
    case Upsert(_, c, u) => CreateInStep(c, lower) && UpdateInStep(u, lower, digest)
  }

  /** Of the row with a blank address and the row with a given one, an update that is not in
      step leaves one out of step. */
  lemma UpdateBreaksSomeRow(d: Data, address: string, lower: Fold, digest: Fold) returns (u: User)
    requires lower("") == "" && Normalised(address, lower) != []
    requires !UpdateInStep(d, lower, digest)
    ensures InStep(u, lower, digest) && !InStep(Patched(u, d, lower, digest), lower, digest)
  {
    var blank, other := User("", None), User(address, Compute(address, lower, digest));
    u := if InStep(Patched(blank, d, lower, digest), lower, digest) then other else blank;
  }

  lemma InStepWriteKeepsStep(users: Users, w: Write, lower: Fold, digest: Fold)
    requires AllInStep(users, lower, digest) && WriteInStep(w, lower, digest)
    ensures AllInStep(Written(users, w, lower, digest), lower, digest)
  {
    if w.Create? && w.data.email.Plain? {
      CreateKeepsStepExactlyWhen(w.data, lower, digest);
    }
    if w.Upsert? && w.create.email.Plain? {
      CreateKeepsStepExactlyWhen(w.create, lower, digest);
    }
  }

  /** A write keeps every table that is in step in step exactly when it is one of these. */
  lemma WriteKeepsStepExactlyWhen(w: Write, address: string, lower: Fold, digest: Fold)
    requires lower("") == "" && Normalised(address, lower) != []
    ensures WriteInStep(w, lower, digest) <==>
            forall users :: AllInStep(users, lower, digest) ==> AllInStep(Written(users, w, lower, digest), lower, digest)
  {
    if WriteInStep(w, lower, digest) {
      forall users | AllInStep(users, lower, digest) ensures AllInStep(Written(users, w, lower, digest), lower, digest) {
        InStepWriteKeepsStep(users, w, lower, digest);
      }
    } else {
      var users := BrokenTable(w, address, lower, digest);
    }
  }

  lemma BrokenTable(w: Write, address: string, lower: Fold, digest: Fold) returns (users: Users)
    requires lower("") == "" && Normalised(address, lower) != []
    requires !WriteInStep(w, lower, digest)
    ensures AllInStep(users, lower, digest) && !AllInStep(Written(users, w, lower, digest), lower, digest)
  {
    users := map[];
    if w.Create? {
      CreateKeepsStepExactlyWhen(w.data, lower, digest);
      assert w.id in Written(users, w, lower, digest);
    } else if w.Upsert? && !CreateInStep(w.create, lower) {
      CreateKeepsStepExactlyWhen(w.create, lower, digest);
      assert w.id in Written(users, w, lower, digest);
    } else {
      var u := UpdateBreaksSomeRow(if w.Update? then w.data else w.update, address, lower, digest);
      users := map[w.id := u];
      assert w.id in Written(users, w, lower, digest);
    }
  }

  function Writing(lower: Fold, digest: Fold): (Users, Write) -> Users {
    (users, w) => Written(users, w, lower, digest)
  }

  /** Every table reached through the callbacks by such writes stays in step. */
  lemma {:induction false} InStepWritesKeepStep(users: Users, writes: seq<Write>, lower: Fold, digest: Fold)
    requires AllInStep(users, lower, digest)
    requires forall w :: w in writes ==> WriteInStep(w, lower, digest)
    ensures AllInStep(Run(users, writes, Writing(lower, digest)), lower, digest)
  {
    if writes != [] {
      var n := |writes| - 1;
      InStepWritesKeepStep(users, writes[..n], lower, digest);
      InStepWriteKeepsStep(Run(users, writes[..n], Writing(lower, digest)), writes[n], lower, digest);
    }
  }

  // ------------------------------------------------------------ spacing and case

  /** `text` begins and ends in no white space, and stands between white space. */
  ghost predicate IsSpaced(spaced: string, front: string, text: string, back: string) {
    && spaced == front + text + back && AllSpace(front) && AllSpace(back)
    && (text != "" ==> !IsSpace(text[0]) && !IsSpace(text[|text| - 1]))
  }

  lemma NormalisedIs(spaced: string, front: string, text: string, back: string, lower: Fold)
    requires IsSpaced(spaced, front, text, back)
    ensures Normalised(spaced, lower) == lower(text)
  {
    if text == "" {
      assert spaced == front + back;
      BlankExactlyWhen(spaced);
    } else {
      TrimOfSpaced(front, text, back);
    }
  }

  /** Addresses have one hash exactly when they differ at most in the white space around them
      and in case; then they find the same rows. An address is hashed as its folded text without
      the white space around it. */
  lemma SameHashExactlyWhen(x: string, l1: string, a: string, r1: string, y: string, l2: string, b: string, r2: string,
                            users: Users, lower: Fold, digest: Fold)
    requires IsSpaced(x, l1, a, r1) && IsSpaced(y, l2, b, r2) && Injective(digest)
    ensures Compute(x, lower, digest) == if lower(a) == "" then None else Some(digest(lower(a)))
    ensures Compute(x, lower, digest) == Compute(y, lower, digest) <==> lower(a) == lower(b)
    ensures lower(a) == lower(b) ==> FoundByHash(users, x, lower, digest) == FoundByHash(users, y, lower, digest)
  {
    NormalisedIs(x, l1, a, r1, lower);
    NormalisedIs(y, l2, b, r2, lower);
  }

  // ------------------------------------------------------------ lookups

  /** The rows the hash query may return. */
  function FoundByHash(users: Users, email: string, lower: Fold, digest: Fold): set<string> {
    var hash := Compute(email, lower, digest);
    set id | id in users && hash.Some? && users[id].emailHash == hash
  }

  /** The rows a scan for the normalised address finds; a blank address finds none. */
  function FoundByScan(users: Users, email: string, lower: Fold): set<string> {
    set id | id in users && Normalised(email, lower) != [] && Normalised(users[id].email, lower) == Normalised(email, lower)
  }

  /** Returns some row with the hash of the address; none when there is none. */
  method FindUserByEmail(users: Users, email: string, lower: Fold, digest: Fold) returns (r: Option<string>)
    ensures r.Some? <==> FoundByHash(users, email, lower, digest) != {}
    ensures r.Some? ==> r.value in FoundByHash(users, email, lower, digest)
  {
    var hash := Compute(email, lower, digest);
    if hash.None? { return None; }
    var rows := FoundByHash(users, email, lower, digest);
    if rows == {} { return None; }
    var id :| id in rows;
    return Some(id);
  }

  /** In a table that is in step, the index finds exactly what a scan finds. */
  lemma IndexAgreesWithScan(users: Users, email: string, lower: Fold, digest: Fold)
    requires AllInStep(users, lower, digest) && Injective(digest)
    ensures FoundByHash(users, email, lower, digest) == FoundByScan(users, email, lower)
  {
    forall id | id in users
      ensures id in FoundByHash(users, email, lower, digest) <==> id in FoundByScan(users, email, lower)
    {
      assert InStep(users[id], lower, digest);
    }
  }

  /** Index and scan agree for every address exactly when every row is in step. */
  lemma IndexAgreesExactlyWhenInStep(users: Users, lower: Fold, digest: Fold)
    requires Injective(digest)
    requires forall id :: id in users && users[id].emailHash.Some? ==>
               HashOfSomeAddress(users[id].emailHash.value, lower, digest)
    ensures AllInStep(users, lower, digest) <==>
            forall email :: FoundByHash(users, email, lower, digest) == FoundByScan(users, email, lower)
  {
    if AllInStep(users, lower, digest) {
      forall email ensures FoundByHash(users, email, lower, digest) == FoundByScan(users, email, lower) {
        IndexAgreesWithScan(users, email, lower, digest);
      }
    } else {
      var id :| id in users && !InStep(users[id], lower, digest);
      var u := users[id];
      if Compute(u.email, lower, digest).Some? {
        assert id in FoundByScan(users, u.email, lower) && id !in FoundByHash(users, u.email, lower, digest);
      } else {
        assert HashOfSomeAddress(u.emailHash.value, lower, digest);
        var email :| Compute(email, lower, digest) == u.emailHash;
        assert id in FoundByHash(users, email, lower, digest) && id !in FoundByScan(users, email, lower);
      }
    }
  }

  ghost predicate HashOfSomeAddress(hash: string, lower: Fold, digest: Fold) {
    exists email :: Compute(email, lower, digest) == Some(hash)
  }

  /** Updating a row to a blank address leaves the hash of the old one behind: the index still
      finds the row under an address it no longer has. */
  lemma BlankUpdateLeavesStaleHash(users: Users, id: string, blank: string, lower: Fold, digest: Fold)
    requires id in users && InStep(users[id], lower, digest)
    requires Compute(users[id].email, lower, digest).Some? && Compute(blank, lower, digest).None?
    ensures var after := Written(users, Update(id, Data(Plain(blank), None)), lower, digest);
            && after[id].email == blank
            && id in FoundByHash(after, users[id].email, lower, digest)
            && id !in FoundByScan(after, users[id].email, lower)
  {
  }

  /** So does an update through a nested `set`, unless the new address normalises alike. */
  lemma NestedSetLeavesStaleHash(users: Users, id: string, text: string, lower: Fold, digest: Fold)
    requires id in users && InStep(users[id], lower, digest) && Injective(digest)
    ensures var after := Written(users, Update(id, Data(SetTo(text), None)), lower, digest);
            InStep(after[id], lower, digest) <==> Normalised(text, lower) == Normalised(users[id].email, lower)
  {
  }
}
