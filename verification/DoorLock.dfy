/**
 The door lock's users and credentials (matter_aliro/cluster.py, with the tables of matter_aliro/device.py).
 Whether 65 octets are a point of the curve is decided by the predicate `onCurve`.
 */
module DoorLock {
  import opened Wrappers
  import opened Bytes
  import opened Sets

  datatype User = User(name: string, uniqueId: int, status: int, userType: int, rule: int, creator: int, modifier: int)

  /** A key object, or the plain octets that a modification puts in its place. */
  datatype Data = Key(point: seq<byte>) | Raw(octets: seq<byte>)

  datatype Credential = Credential(user: int, data: Data, creator: int, modifier: int)

  /** Users by index, credentials by type and index. */
  datatype Lock = Lock(users: map<int, User>, credentials: map<int, map<int, Credential>>)

  datatype Operation = Add | Modify | Other

  datatype Answer = Accepted | InvalidCommand | Occupied | Crashed(error: Error)

  const ALL := 0xFFFE
  const ISSUER := 6
  const EVICTABLE := 7
  const NON_EVICTABLE := 8
  const EMPTY: map<int, map<int, Credential>> := map[ISSUER := map[], EVICTABLE := map[], NON_EVICTABLE := map[]]
  const INITIAL := Lock(map[], EMPTY)

  /** Saving asks every credential's data for its octets, which plain octets do not have. */
  predicate Savable(s: Lock) {
    forall k, i | k in s.credentials && i in s.credentials[k] :: s.credentials[k][i].data.Key?
  }

  /** The state is changed already when saving it fails. */
  function Saved(s: Lock, a: Answer): (Lock, Answer) {
    (s, if Savable(s) then a else Crashed(AttributeError))
  }

  predicate ValidStatus(v: int) {
    v == 0 || v == 1 || v == 3
  }

  predicate ValidType(v: int) {
    v == 0 || 4 <= v <= 7
  }

  predicate ValidRule(v: int) {
    0 <= v <= 2
  }

  predicate ValidCredentialType(v: int) {
    0 <= v <= 8
  }

  /** `x or default`: null and zero are both replaced. */
  function OrDefault(x: Option<int>, default: int): int {
    if x.None? || x.value == 0 then default else x.value
  }

  datatype UserFields = UserFields(name: Option<string>, uniqueId: Option<int>, status: Option<int>,
                                   userType: Option<int>, rule: Option<int>)

  function NewUser(f: UserFields, fabric: int): Result<User> {
    var u := User(f.name.GetOr(""), OrDefault(f.uniqueId, 0xFFFF_FFFF), OrDefault(f.status, 1),
                  OrDefault(f.userType, 0),
                  OrDefault(f.rule, 0), fabric, fabric);
    if ValidStatus(u.status) && ValidType(u.userType) && ValidRule(u.rule) then Success(u) else Failure(ValueError)
  }

  /** Fields are set one after the other; an invalid value stops, and leaves the fields before it set. */
  function Modified(u: User, f: UserFields, fabric: int): (User, Answer) {
    var u1 := u.(name := f.name.GetOr(u.name), uniqueId := f.uniqueId.GetOr(u.uniqueId));
    if f.status.Some? && !ValidStatus(f.status.value) then (u1, Crashed(ValueError)) else
    var u2 := u1.(status := f.status.GetOr(u.status));
    if f.userType.Some? && !ValidType(f.userType.value) then (u2, Crashed(ValueError)) else
    var u3 := u2.(userType := f.userType.GetOr(u.userType));
    if f.rule.Some? && !ValidRule(f.rule.value) then (u3, Crashed(ValueError))
    else (u3.(rule := f.rule.GetOr(u.rule), modifier := fabric), Accepted)
  }

  function SetUser(s: Lock, op: Operation, index: int, f: UserFields, fabric: int): (Lock, Answer) {
    match op
    case Add =>
      if index in s.users then (s, Occupied)
      else if NewUser(f, fabric).Failure? then (s, Crashed(NewUser(f, fabric).error))
      else Saved(s.(users := s.users[index := NewUser(f, fabric).value]), Accepted)
    case Modify =>
      if index !in s.users then (s, InvalidCommand)
      else if (f.name.Some? || f.uniqueId.Some?) && fabric != s.users[index].creator then (s, InvalidCommand)
      else
        var (u, a) := Modified(s.users[index], f, fabric);
        var t := s.(users := s.users[index := u]);
        if a == Accepted then Saved(t, a) else (t, a)
    case Other => (s, InvalidCommand)
  }

  function Others(creds: map<int, Credential>, user: int): map<int, Credential> {
    map i | i in creds && creds[i].user != user :: creds[i]
  }

  function OthersOfAll(credentials: map<int, map<int, Credential>>, user: int): (r: map<int, map<int, Credential>>)
    ensures r.Keys == credentials.Keys && forall k | k in credentials :: r[k] == Others(credentials[k], user)
  {
    map k | k in credentials :: Others(credentials[k], user)
  }

  function ClearUser(s: Lock, index: int): (Lock, Answer) {
    if index == ALL then (INITIAL, Accepted)
    else if index in s.users then Saved(Lock(s.users - {index}, OthersOfAll(s.credentials, index)), Accepted)
    else (s, InvalidCommand)
  }

  // ---------------------------------------------------------------------- credentials

  datatype CredentialRequest = CredentialRequest(kind: int, index: int, data: seq<byte>, user: Option<int>,
                                                 status: Option<int>,
                                                 userType: Option<int>)

  function Put(s: Lock, kind: int, index: int, c: Credential): Lock
    requires kind in s.credentials
  {
    s.(credentials := s.credentials[kind := s.credentials[kind][index := c]])
  }

  const MAX_USER := 65534

  /** Answers to SetCredential name the user made, if any, and a next credential index. */
  datatype Reply = Reply(answer: Answer, user: Option<int>, next: Option<int>)

  /**
   Adding without a user makes one first, under the least free index; it stays when the key turns out to be no
   point of the curve.
   */
  ghost function AddAlone(s: Lock, r: CredentialRequest, onCurve: seq<byte> -> bool, fabric: int): (Lock, Answer)
    requires r.kind in s.credentials
  {
    var free := FirstFree(s.users.Keys, MAX_USER);
    if r.index in s.credentials[r.kind] then (s, Occupied)
    else if |r.data| != 65 then (s, InvalidCommand)
    else if free.None? then (s, Crashed(StopIteration))
    else
      var u := NewUser(UserFields(None, None, r.status, r.userType, None), fabric);
      if u.Failure? then (s, Crashed(u.error))
      else
        var t := s.(users := s.users[free.value := u.value]);
        if !onCurve(r.data) then (t, Crashed(ValueError))
        else Saved(Put(t, r.kind, r.index, Credential(free.value, Key(r.data), fabric, fabric)), InvalidCommand)
  }

  function AddTo(s: Lock, r: CredentialRequest, onCurve: seq<byte> -> bool, fabric: int): (Lock, Answer)
    requires r.kind in s.credentials && r.user.Some?
  {
    if r.index in s.credentials[r.kind] then (s, Occupied)
    else if r.user.value !in s.users then (s, InvalidCommand)
    else if |r.data| != 65 then (s, InvalidCommand)
    else if s.users[r.user.value].creator != fabric then (s, InvalidCommand)
    else if !onCurve(r.data) then (s, Crashed(ValueError))
    else Saved(Put(s, r.kind, r.index, Credential(r.user.value, Key(r.data), fabric, fabric)), Accepted)
  }

  function Replace(s: Lock, r: CredentialRequest, fabric: int): (Lock, Answer)
    requires r.kind in s.credentials && r.user.Some?
  {
    if r.index !in s.credentials[r.kind] then (s, InvalidCommand)
    else
      var c := s.credentials[r.kind][r.index];
      if c.user != r.user.value || c.creator != fabric then (s, InvalidCommand)
      else Saved(Put(s, r.kind, r.index, c.(data := Raw(r.data))), Accepted)
  }

  /** The new state and the status. */
  ghost function SetCredential(s: Lock, op: Operation, r: CredentialRequest, onCurve: seq<byte> -> bool, fabric: int)
    : (Lock, Answer)
  {
    if !ValidCredentialType(r.kind) then (s, Crashed(ValueError))
    else if r.kind !in s.credentials then (s, InvalidCommand)
    else match op
      case Add => if r.user.None? then AddAlone(s, r, onCurve, fabric) else AddTo(s, r, onCurve, fabric)
      case Modify => if r.user.None? then (s, InvalidCommand) else Replace(s, r, fabric)
      case Other => (s, InvalidCommand)
  }

  /** The whole reply: the next index is looked up above the number of the type, and before the change. */
  ghost function SetCredentialReply(s: Lock, op: Operation, r: CredentialRequest, onCurve: seq<byte> -> bool,
                                    fabric: int)
    : Reply
  {
    var (t, a) := SetCredential(s, op, r, onCurve, fabric);
    if a.Crashed? || r.kind !in s.credentials || op == Other then Reply(a, None, None)
    else
      Reply(a, if t.users != s.users then FirstFree(s.users.Keys, MAX_USER) else None,
            NextAbove(s.credentials[r.kind].Keys, r.kind))
  }

  /** A credential to clear is its type and index; `None` is null and clears them all. */
  function ClearCredential(s: Lock, which: Option<(int, int)>): (Lock, Answer) {
    if which.None? then Saved(s.(credentials := EMPTY), Accepted)
    else
      var (kind, index) := which.value;
      if !ValidCredentialType(kind) then (s, Crashed(ValueError))
      else if index == ALL then
        if kind in s.credentials then Saved(s.(credentials := s.credentials[kind := map[]]), Accepted)
        else (s, InvalidCommand)
      else if kind !in s.credentials then (s, Crashed(KeyError))
      else if index !in s.credentials[kind] then (s, InvalidCommand)
      else Saved(s.(credentials := s.credentials[kind := s.credentials[kind] - {index}]), Accepted)
  }

  // ---------------------------------------------------------------------- runs

  datatype Command =
    | CSetUser(op: Operation, index: int, fields: UserFields, fabric: int)
    | CClearUser(index: int)
    | CSetCredential(op: Operation, request: CredentialRequest, fabric: int)
    | CClearCredential(which: Option<(int, int)>)

  ghost function Step(s: Lock, c: Command, onCurve: seq<byte> -> bool): (Lock, Answer) {
    match c
    case CSetUser(op, i, f, fabric) => SetUser(s, op, i, f, fabric)
    case CClearUser(i) => ClearUser(s, i)
    case CSetCredential(op, r, fabric) => SetCredential(s, op, r, onCurve, fabric)
    case CClearCredential(w) => ClearCredential(s, w)
  }

  /** Three tables of credentials, each credential of a user that exists, made by the user's fabric. */
  predicate Consistent(s: Lock) {
    && s.credentials.Keys == {ISSUER, EVICTABLE, NON_EVICTABLE}
    && forall k, i | k in s.credentials && i in s.credentials[k] ::
         s.credentials[k][i].user in s.users && s.credentials[k][i].creator == s.users[s.credentials[k][i].user].creator
  }

  lemma SetUserKeeps(s: Lock, op: Operation, index: int, f: UserFields, fabric: int)
    requires Consistent(s)
    ensures Consistent(SetUser(s, op, index, f, fabric).0)
  {
    hide ValidStatus, ValidType, ValidRule, OrDefault;
  }

  lemma ClearUserKeeps(s: Lock, index: int)
    requires Consistent(s)
    ensures Consistent(ClearUser(s, index).0)
  {
  }

  lemma PutKeeps(s: Lock, kind: int, index: int, c: Credential)
    requires Consistent(s) && kind in s.credentials && c.user in s.users && c.creator == s.users[c.user].creator
    ensures Consistent(Put(s, kind, index, c))
  {
  }

  lemma AddAloneKeeps(s: Lock, r: CredentialRequest, onCurve: seq<byte> -> bool, fabric: int)
    requires Consistent(s) && r.kind in s.credentials
    ensures Consistent(AddAlone(s, r, onCurve, fabric).0)
  {
    hide ValidStatus, ValidType, ValidRule, OrDefault, FirstFree, Savable;
    var u := NewUser(UserFields(None, None, r.status, r.userType, None), fabric);
    var free := FirstFree(s.users.Keys, MAX_USER);
    if u.Success? && free.Some? {
      var t := s.(users := s.users[free.value := u.value]);
      assert Consistent(t);
      PutKeeps(t, r.kind, r.index, Credential(free.value, Key(r.data), fabric, fabric));
      hide Consistent;
    }
  }

  lemma SetCredentialKeeps(s: Lock, op: Operation, r: CredentialRequest, onCurve: seq<byte> -> bool, fabric: int)
    requires Consistent(s)
    ensures Consistent(SetCredential(s, op, r, onCurve, fabric).0)
  {
    hide AddAlone, Savable;
    if r.kind in s.credentials {
      AddAloneKeeps(s, r, onCurve, fabric);
      if r.user.Some? && r.user.value in s.users && s.users[r.user.value].creator == fabric {
        PutKeeps(s, r.kind, r.index, Credential(r.user.value, Key(r.data), fabric, fabric));
      }
      if r.index in s.credentials[r.kind] {
        PutKeeps(s, r.kind, r.index, s.credentials[r.kind][r.index].(data := Raw(r.data)));
      }
    }
    hide Consistent, Put;
  }

  lemma ClearCredentialKeeps(s: Lock, which: Option<(int, int)>)
    requires Consistent(s)
    ensures Consistent(ClearCredential(s, which).0)
  {
  }

  lemma StepKeeps(s: Lock, c: Command, onCurve: seq<byte> -> bool)
    requires Consistent(s)
    ensures Consistent(Step(s, c, onCurve).0)
  {
    hide Consistent, SetUser, ClearUser, SetCredential, ClearCredential;
    match c
    case CSetUser(op, i, f, fabric) => SetUserKeeps(s, op, i, f, fabric);
    case CClearUser(i) => ClearUserKeeps(s, i);
    case CClearCredential(w) => ClearCredentialKeeps(s, w);
    case CSetCredential(op, r, fabric) => SetCredentialKeeps(s, op, r, onCurve, fabric);
  }

  /** The command acts for this fabric on users or credentials. */
  predicate By(c: Command, fabric: int) {
    (c.CSetUser? && c.fabric == fabric) || (c.CSetCredential? && c.fabric == fabric)
  }

  ghost predicate UsersProtected(s: Lock, c: Command, t: Lock) {
    forall i | i in s.users && i in t.users ::
      && t.users[i].creator == s.users[i].creator
      && (t.users[i].name != s.users[i].name || t.users[i].uniqueId != s.users[i].uniqueId ==>
          By(c, s.users[i].creator))
  }

  ghost predicate CredentialsProtected(s: Lock, c: Command, t: Lock) {
    forall k, i | k in s.credentials && k in t.credentials && i in s.credentials[k] && i in t.credentials[k] ::
      && t.credentials[k][i].user == s.credentials[k][i].user
      && t.credentials[k][i].creator == s.credentials[k][i].creator
      && (t.credentials[k][i].data != s.credentials[k][i].data ==> By(c, s.credentials[k][i].creator))
  }

  lemma SetUserProtects(s: Lock, op: Operation, i: int, f: UserFields, fabric: int)
    ensures var t := SetUser(s, op, i, f, fabric).0; var c := CSetUser(op, i, f, fabric);
            UsersProtected(s, c, t) && CredentialsProtected(s, c, t)
  {
    hide ValidStatus, ValidType, ValidRule, OrDefault;
  }

  lemma ClearUserProtects(s: Lock, i: int)
    ensures UsersProtected(s, CClearUser(i), ClearUser(s, i).0)
            && CredentialsProtected(s, CClearUser(i), ClearUser(s, i).0)
  {
  }

  /**
   A user keeps its creator for as long as it exists and is renamed only by the creator's fabric; a stored
   credential keeps its user and creator, and only that fabric changes its data.
   */
  lemma StepProtects(s: Lock, c: Command, onCurve: seq<byte> -> bool)
    ensures UsersProtected(s, c, Step(s, c, onCurve).0) && CredentialsProtected(s, c, Step(s, c, onCurve).0)
  {
    hide SetUser, ClearUser, SetCredential, Savable;
    match c
    case CSetUser(op, i, f, fabric) => SetUserProtects(s, op, i, f, fabric);
    case CClearUser(i) => ClearUserProtects(s, i);
    case CClearCredential(w) =>
    case CSetCredential(op, r, fabric) => SetCredentialProtects(s, op, r, onCurve, fabric);
  }

  lemma SetCredentialProtects(s: Lock, op: Operation, r: CredentialRequest, onCurve: seq<byte> -> bool, fabric: int)
    ensures var t := SetCredential(s, op, r, onCurve, fabric).0; var c := CSetCredential(op, r, fabric);
            UsersProtected(s, c, t) && CredentialsProtected(s, c, t)
  {
    hide ValidStatus, ValidType, ValidRule, OrDefault, Savable, FirstFree;
  }

  /** A run is the states it passes through. */
  ghost predicate IsRun(commands: seq<Command>, onCurve: seq<byte> -> bool, states: seq<Lock>, answers: seq<Answer>) {
    && |states| == |commands| + 1 && |answers| == |commands| && states[0] == INITIAL
    && forall i | 0 <= i < |commands| :: (states[i + 1], answers[i]) == Step(states[i], commands[i], onCurve)
  }

  /** In every state of every run each credential belongs to a user that exists, and to that user's fabric. */
  lemma {:induction false} RunConsistent(commands: seq<Command>, onCurve: seq<byte> -> bool, states: seq<Lock>,
                                         answers: seq<Answer>, n: nat)
    requires IsRun(commands, onCurve, states, answers) && n < |states|
    ensures Consistent(states[n])
  {
    hide Step, Consistent;
    if n == 0 {
      InitialConsistent();
    } else {
      RunConsistent(commands, onCurve, states, answers, n - 1);
      StepKeeps(states[n - 1], commands[n - 1], onCurve);
    }
  }

  lemma InitialConsistent()
    ensures Consistent(INITIAL)
  {
  }

  /** ClearUser removes the user and exactly the user's credentials. */
  lemma ClearUserExactly(s: Lock, index: int)
    requires index in s.users && index != ALL
    ensures var t := ClearUser(s, index).0;
            && t.users == s.users - {index} && t.credentials.Keys == s.credentials.Keys
            && forall k, i | k in s.credentials ::
                 (i in t.credentials[k] <==> i in s.credentials[k] && s.credentials[k][i].user != index)
                 && (i in t.credentials[k] ==> t.credentials[k][i] == s.credentials[k][i])
  {
  }

  /** Adding without a user never answers success, and stores the credential exactly when nothing stands in the way. */
  lemma AddAloneStoresIff(s: Lock, r: CredentialRequest, onCurve: seq<byte> -> bool, fabric: int)
    requires r.kind in s.credentials && r.index !in s.credentials[r.kind]
    ensures var (t, a) := AddAlone(s, r, onCurve, fabric);
            var free := FirstFree(s.users.Keys, MAX_USER);
            var made := && |r.data| == 65 && free.Some?
                        && ValidStatus(OrDefault(r.status, 1)) && ValidType(OrDefault(r.userType, 0));
            && a != Accepted
            && (t.users != s.users <==> made)
            && (r.index in t.credentials[r.kind] <==> made && onCurve(r.data))
            && (made ==> free.value !in s.users && t.users.Keys == s.users.Keys + {free.value}
                         && forall i | i in s.users :: t.users[i] == s.users[i])
  {
    hide ValidStatus, ValidType, OrDefault, Savable, FirstFree;
    RuleDefault();
  }

  /** 65 octets that are no point leave a user and no credential. */
  lemma UserLeftBehind()
    ensures exists r: CredentialRequest ::
              var (t, a) := Step(INITIAL, CSetCredential(Add, r, 1), _ => false);
              a == Crashed(ValueError) && 1 in t.users && t.credentials == EMPTY
  {
    var r := CredentialRequest(ISSUER, 1, seq(65, _ => 0), None, None, None);
    assert 1 <= 1 <= MAX_USER && 1 !in INITIAL.users;
    var (t, a) := Step(INITIAL, CSetCredential(Add, r, 1), _ => false);
    assert a == Crashed(ValueError) && 1 in t.users && t.credentials == EMPTY;
  }

  lemma RuleDefault()
    ensures ValidRule(OrDefault(None, 0))
  {
  }

  // ---------------------------------------------------------------------- replaced credentials

  /** Replacing a credential's data never answers success, and replaces it exactly for its user and its fabric. */
  lemma ReplaceIff(s: Lock, r: CredentialRequest, fabric: int)
    requires r.kind in s.credentials && r.user.Some?
    ensures var (t, a) := Replace(s, r, fabric);
            var allowed := && r.index in s.credentials[r.kind]
                           && s.credentials[r.kind][r.index].user == r.user.value
                           && s.credentials[r.kind][r.index].creator == fabric;
            && a == (if allowed then Crashed(AttributeError) else InvalidCommand)
            && (allowed ==> RawAt(t, r.kind, r.index) && t.credentials[r.kind][r.index].data.octets == r.data)
            && (!allowed ==> t == s)
  {
    var t := Replace(s, r, fabric).0;
    if t != s { assert !t.credentials[r.kind][r.index].data.Key?; }
  }

  const NO_FIELDS := UserFields(None, None, None, None, None)

  /** The request for an issuer key of user 1. */
  function IssuerKey(index: int, data: seq<byte>): CredentialRequest {
    CredentialRequest(ISSUER, index, data, Some(1), None, None)
  }

  /** From an empty lock, fabric 1 adds a user and an issuer key. */
  lemma FirstKey(index: int, key: seq<byte>, onCurve: seq<byte> -> bool) returns (s1: Lock, s2: Lock)
    requires |key| == 65 && onCurve(key)
    ensures Step(INITIAL, CSetUser(Add, 1, NO_FIELDS, 1), onCurve) == (s1, Accepted)
    ensures Step(s1, CSetCredential(Add, IssuerKey(index, key), 1), onCurve) == (s2, Accepted)
    ensures 1 in s2.users && s2.users[1].creator == 1
    ensures s2.credentials == EMPTY[ISSUER := map[index := Credential(1, Key(key), 1, 1)]]
  {
    SavableEmpty();
    s1 := Step(INITIAL, CSetUser(Add, 1, NO_FIELDS, 1), onCurve).0;
    s2 := Step(s1, CSetCredential(Add, IssuerKey(index, key), 1), onCurve).0;
  }

  /** A fabric replaces the key of its own credential: the key is gone and the command raises. */
  lemma DataReplaced(key: seq<byte>, data: seq<byte>, onCurve: seq<byte> -> bool)
    requires |key| == 65 && onCurve(key)
    ensures var commands := [CSetUser(Add, 1, NO_FIELDS, 1), CSetCredential(Add, IssuerKey(1, key), 1),
                             CSetCredential(Modify, IssuerKey(1, data), 1)];
            exists states :: IsRun(commands, onCurve, states, [Accepted, Accepted, Crashed(AttributeError)])
                             && RawAt(states[3], ISSUER, 1)
  {
    var s1, s2 := FirstKey(1, key, onCurve);
    ReplaceIff(s2, IssuerKey(1, data), 1);
    var s3 := Step(s2, CSetCredential(Modify, IssuerKey(1, data), 1), onCurve).0;
    hide SetUser, AddTo, Savable;
    var states := [INITIAL, s1, s2, s3];
    assert RawAt(states[3], ISSUER, 1);
  }

  /** A stored credential whose data are plain octets. */
  predicate RawAt(s: Lock, kind: int, index: int) {
    kind in s.credentials && index in s.credentials[kind] && s.credentials[kind][index].data.Raw?
  }

  /** Success means that everything stored can be saved; plain octets stay until their credential goes. */
  lemma StepSaves(s: Lock, c: Command, onCurve: seq<byte> -> bool, kind: int, index: int)
    ensures var (t, a) := Step(s, c, onCurve);
            && (a == Accepted ==> Savable(t))
            && (RawAt(s, kind, index) && kind in t.credentials && index in t.credentials[kind] ==>
                RawAt(t, kind, index))
  {
    hide ValidStatus, ValidType, ValidRule, OrDefault, FirstFree, Savable, Modified;
    assert Savable(INITIAL) by { SavableEmpty(); }
  }

  lemma SavableEmpty()
    ensures Savable(INITIAL)
  {
  }

  /**
   Over every run: once a credential's data has been replaced, no command is answered with success until that
   credential goes.
   */
  lemma {:induction false} RawBlocks(commands: seq<Command>, onCurve: seq<byte> -> bool, states: seq<Lock>,
                                     answers: seq<Answer>,
                                     kind: int, index: int, m: nat, n: nat)
    requires IsRun(commands, onCurve, states, answers) && m <= n < |states| && RawAt(states[m], kind, index)
    requires forall i | m <= i <= n :: kind in states[i].credentials && index in states[i].credentials[kind]
    ensures RawAt(states[n], kind, index) && forall i | m <= i < n :: answers[i] != Accepted
    decreases n - m
  {
    hide Step;
    if m < n {
      StepSaves(states[m], commands[m], onCurve, kind, index);
      RawBlocks(commands, onCurve, states, answers, kind, index, m + 1, n);
    }
  }

  // ---------------------------------------------------------------------- cursors

  /** The least index above i, if any. */
  ghost predicate IsNext(indexes: set<int>, i: int, next: Option<int>) {
    match next
    case None => forall j | j in indexes :: j <= i
    case Some(n) => n in indexes && i < n && forall j | j in indexes && i < j :: n <= j
  }

  ghost function NextAbove(indexes: set<int>, i: int): (r: Option<int>)
    ensures IsNext(indexes, i, r)
  {
    var above := Above(indexes, i);
    if above == {} then
      None
    else
      assert exists m :: m in above && forall j | j in above :: m <= j by { MinExists(above); }
      var m :| m in above && forall j | j in above :: m <= j;
      Some(m)
  }

  function Above(indexes: set<int>, i: int): (r: set<int>)
    ensures forall u :: u in r <==> u in indexes && u > i
    ensures r == {} <==> forall u | u in indexes :: u <= i
  {
    NonEmpty(set u | u in indexes && u > i);
    set u | u in indexes && u > i
  }

  lemma NextSameIff(indexes: set<int>, i: int, j: int)
    ensures NextAbove(indexes, i) == NextAbove(indexes, j) <==>
            forall k | k in indexes :: !(i < k <= j) && !(j < k <= i)
  {
    hide NextAbove;
  }

  /**
   The next credential index of a SetCredential reply is the one after the credential's own index exactly when no
   stored index lies between that and the number of the type, above which the source looks it up.
   */
  lemma ReplyNextIff(s: Lock, op: Operation, r: CredentialRequest, onCurve: seq<byte> -> bool, fabric: int)
    requires op != Other && r.kind in s.credentials && !SetCredentialReply(s, op, r, onCurve, fabric).answer.Crashed?
    ensures SetCredentialReply(s, op, r, onCurve, fabric).next == NextAbove(s.credentials[r.kind].Keys, r.index)
            <==> forall j | j in s.credentials[r.kind] :: !(r.kind < j <= r.index) && !(r.index < j <= r.kind)
  {
    hide NextAbove, SetCredential, FirstFree;
    NextSameIff(s.credentials[r.kind].Keys, r.kind, r.index);
  }

  /** With key 7 stored, the reply to adding key 8 names 7 as the next one. */
  lemma ReplyLooksBack(key: seq<byte>, onCurve: seq<byte> -> bool) returns (s: Lock)
    requires |key| == 65 && onCurve(key)
    ensures exists s1 :: && Step(INITIAL, CSetUser(Add, 1, NO_FIELDS, 1), onCurve) == (s1, Accepted)
                         && Step(s1, CSetCredential(Add, IssuerKey(7, key), 1), onCurve) == (s, Accepted)
    ensures SetCredentialReply(s, Add, IssuerKey(8, key), onCurve, 1) == Reply(Accepted, None, Some(7))
  {
    var s1;
    s1, s := FirstKey(7, key, onCurve);
    hide SetUser;
    assert s.credentials[ISSUER].Keys == {7};
    assert NextAbove({7}, ISSUER) == Some(7) by { hide NextAbove; }
    var (t, a) := SetCredential(s, Add, IssuerKey(8, key), onCurve, 1);
    assert a == Accepted && t.users == s.users;
  }

  method NextOccupied(indexes: set<int>, i: int) returns (next: Option<int>)
    ensures next == NextAbove(indexes, i)
    ensures IsNext(indexes, i, next)
  {
    var rest := indexes;
    next := None;
    while rest != {}
      invariant rest <= indexes && IsNext(indexes - rest, i, next)
    {
      NonEmpty(rest);
      var j :| j in rest;
      if i < j && (next.None? || j < next.value) {
        next := Some(j);
      }
      assert indexes - (rest - {j}) == (indexes - rest) + {j};
      rest := rest - {j};
    }
    assert indexes - rest == indexes;
  }

  /** The answers to GetUser when each asks for the index the last one named. */
  ghost predicate Follows(users: set<int>, from: int, visited: seq<int>)
    decreases |visited|
  {
    if visited == [] then IsNext(users, from, None)
    else IsNext(users, from, Some(visited[0])) && Follows(users, visited[0], visited[1..])
  }

  /** Following the cursor visits every index above the start exactly once, in ascending order. */
  lemma {:induction false} FollowsVisitsAll(users: set<int>, from: int, visited: seq<int>)
    requires Follows(users, from, visited)
    ensures forall i, j | 0 <= i < j < |visited| :: visited[i] < visited[j]
    ensures forall u :: u in visited <==> u in users && u > from
    decreases |visited|
  {
    if visited != [] {
      FollowsVisitsAll(users, visited[0], visited[1..]);
      assert visited == [visited[0]] + visited[1..];
      assert forall i | 0 < i < |visited| :: visited[i] in visited[1..];
    }
  }

  /** The cursor ends: some finite sequence of answers follows it to null. */
  lemma {:induction false} FollowsEnds(users: set<int>, from: int) returns (visited: seq<int>)
    ensures Follows(users, from, visited)
    decreases |Above(users, from)|
  {
    if u :| u in users && u > from {
      var n := LeastAbove(users, from, u);
      assert n in Above(users, from) && n !in Above(users, n);
      SubsetSize(Above(users, n), Above(users, from));
      var rest := FollowsEnds(users, n);
      visited := [n] + rest;
      assert visited[1..] == rest;
    } else {
      visited := [];
    }
  }

  lemma {:induction false} LeastAbove(users: set<int>, from: int, u: int) returns (n: int)
    requires u in users && u > from
    ensures IsNext(users, from, Some(n))
    decreases u - from
  {
    if m :| m in users && from < m < u {
      n := LeastAbove(users, from, m);
    } else {
      n := u;
    }
  }

  // ---------------------------------------------------------------------- the handlers

  /** The answer to GetUser; the user is absent when the index is available. */
  datatype UserAnswer = UserAnswer(user: Option<User>, credentials: seq<(int, int)>, next: Option<int>)

  datatype CredentialAnswer = CredentialAnswer(credential: Option<Credential>, next: Option<int>)

  class DoorLockCluster {
    var users: map<int, User>
    var credentials: map<int, map<int, Credential>>

    ghost function Abs(): Lock
      reads this
    {
      Lock(users, credentials)
    }

    constructor ()
      ensures Abs() == INITIAL
    {
      users, credentials := map[], EMPTY;
    }

    /** Saving raises when some credential's data are plain octets. */
    method SaveState() returns (r: Result<()>)
      ensures r == if Savable(Abs()) then Success(()) else Failure(AttributeError)
    {
      var kinds := credentials.Keys;
      while kinds != {}
        invariant kinds <= credentials.Keys
        invariant forall k, i | k in credentials && k !in kinds && i in credentials[k] :: credentials[k][i].data.Key?
      {
        NonEmpty(kinds);
        var kind :| kind in kinds;
        var indexes := credentials[kind].Keys;
        while indexes != {}
          invariant indexes <= credentials[kind].Keys
          invariant forall i | i in credentials[kind] && i !in indexes :: credentials[kind][i].data.Key?
        {
          NonEmpty(indexes);
          var i :| i in indexes;
          if credentials[kind][i].data.Raw? {
            return Failure(AttributeError);
          }
          indexes := indexes - {i};
        }
        kinds := kinds - {kind};
      }
      return Success(());
    }

    method HandleSetUser(op: Operation, index: int, f: UserFields, fabric: int) returns (a: Answer)
      modifies this
      ensures (Abs(), a) == SetUser(old(Abs()), op, index, f, fabric)
    {
      match op
      case Add =>
        if index in users {
          return Occupied;
        }
        var u := NewUser(f, fabric);
        if u.Failure? {
          return Crashed(u.error);
        }
        users := users[index := u.value];
        var saved := SaveState();
        return if saved.Success? then Accepted else Crashed(saved.error);
      case Modify =>
        if index !in users {
          return InvalidCommand;
        }
        var user := users[index];
        if f.name.Some? && fabric != user.creator {
          return InvalidCommand;
        }
        if f.uniqueId.Some? && fabric != user.creator {
          return InvalidCommand;
        }
        var (u, answer) := Modified(user, f, fabric);
        users := users[index := u];
        if answer == Accepted {
          var saved := SaveState();
          return if saved.Success? then Accepted else Crashed(saved.error);
        }
        return answer;
      case Other =>
        return InvalidCommand;
    }

    /** The user, the credentials of that user and no others, each once, and the next index. */
    method HandleGetUser(index: int) returns (r: UserAnswer)
      ensures IsNext(users.Keys, index, r.next)
      ensures r.user == if index in users then Some(users[index]) else None
      ensures index in users ==>
                && (forall k, i ::
                    (k, i) in r.credentials <==>
                      k in credentials && i in credentials[k] && credentials[k][i].user == index)
                && (forall i, j | 0 <= i < j < |r.credentials| :: r.credentials[i] != r.credentials[j])
      ensures index !in users ==> r.credentials == []
    {
      var next := NextOccupied(users.Keys, index);
      if index !in users {
        return UserAnswer(None, [], next);
      }
      var found: seq<(int, int)> := [];
      var kinds := credentials.Keys;
      while kinds != {}
        invariant kinds <= credentials.Keys
        invariant forall k, i ::
                  (k, i) in found <==>
                    k in credentials && k !in kinds && i in credentials[k] && credentials[k][i].user == index
        invariant forall i, j | 0 <= i < j < |found| :: found[i] != found[j]
      {
        NonEmpty(kinds);
        var kind :| kind in kinds;
        found := Collect(found, kind, credentials[kind], index);
        kinds := kinds - {kind};
      }
      return UserAnswer(Some(users[index]), found, next);
    }

    static method Collect(before: seq<(int, int)>, kind: int, creds: map<int, Credential>, user: int)
      returns (found: seq<(int, int)>)
      requires forall i :: (kind, i) !in before
      requires forall i, j | 0 <= i < j < |before| :: before[i] != before[j]
      ensures forall k, i :: (k, i) in found <==> (k, i) in before || (k == kind && i in creds && creds[i].user == user)
      ensures forall i, j | 0 <= i < j < |found| :: found[i] != found[j]
    {
      found := before;
      var indexes := creds.Keys;
      while indexes != {}
        invariant indexes <= creds.Keys
        invariant forall k, i ::
                  (k, i) in found <==>
                    (k, i) in before || (k == kind && i in creds && i !in indexes && creds[i].user == user)
        invariant forall i, j | 0 <= i < j < |found| :: found[i] != found[j]
      {
        NonEmpty(indexes);
        var i :| i in indexes;
        if creds[i].user == user {
          assert (kind, i) !in found;
          found := found + [(kind, i)];
        }
        indexes := indexes - {i};
      }
    }

    static method RemoveOf(creds: map<int, Credential>, user: int) returns (kept: map<int, Credential>)
      ensures kept == Others(creds, user)
    {
      var indexes := creds.Keys;
      var tbd: set<int> := {};
      while indexes != {}
        invariant indexes <= creds.Keys
        invariant forall i :: i in tbd <==> i in creds && i !in indexes && creds[i].user == user
      {
        NonEmpty(indexes);
        var i :| i in indexes;
        if creds[i].user == user {
          tbd := tbd + {i};
        }
        indexes := indexes - {i};
      }
      kept := creds - tbd;
      assert forall i :: i in kept <==> i in Others(creds, user);
    }

    method HandleClearUser(index: int) returns (a: Answer)
      modifies this
      ensures (Abs(), a) == ClearUser(old(Abs()), index)
    {
      if index == ALL {
        users := map[];
        credentials := EMPTY;
        var saved := SaveState();
        assert saved.Success? by { SavableEmpty(); }
        return Accepted;
      }
      if index !in users {
        return InvalidCommand;
      }
      users := users - {index};
      ghost var cleared := OthersOfAll(credentials, index);
      var kinds := credentials.Keys;
      while kinds != {}
        invariant users == old(users) - {index} && credentials.Keys == old(credentials).Keys
                  && kinds <= credentials.Keys
        invariant forall k | k in credentials ::
                    credentials[k] == if k in kinds then old(credentials)[k] else cleared[k]
      {
        NonEmpty(kinds);
        var kind :| kind in kinds;
        var kept := RemoveOf(credentials[kind], index);
        credentials := credentials[kind := kept];
        kinds := kinds - {kind};
      }
      assert credentials.Keys == cleared.Keys;
      assert forall k | k in credentials :: credentials[k] == cleared[k];
      assert credentials == cleared;
      var saved := SaveState();
      return if saved.Success? then Accepted else Crashed(saved.error);
    }

    method HandleSetCredential(op: Operation, r: CredentialRequest, onCurve: seq<byte> -> bool, fabric: int)
      returns (reply: Reply)
      modifies this
      ensures (Abs(), reply.answer) == SetCredential(old(Abs()), op, r, onCurve, fabric)
      ensures reply == SetCredentialReply(old(Abs()), op, r, onCurve, fabric)
    {
      hide FirstFree, NextAbove, Savable;
      if !ValidCredentialType(r.kind) {
        return Reply(Crashed(ValueError), None, None);
      }
      if r.kind !in credentials {
        return Reply(InvalidCommand, None, None);
      }
      var creds := credentials[r.kind];
      var next := NextOccupied(creds.Keys, r.kind);
      if op == Add && r.user.None? {
        if r.index in creds {
          return Reply(Occupied, None, next);
        }
        if |r.data| != 65 {
          return Reply(InvalidCommand, None, next);
        }
        var free := SearchFree(users.Keys, MAX_USER);
        if free.None? {
          return Reply(Crashed(StopIteration), None, None);
        }
        var u := NewUser(UserFields(None, None, r.status, r.userType, None), fabric);
        if u.Failure? {
          return Reply(Crashed(u.error), None, None);
        }
        users := users[free.value := u.value];
        assert users != old(users) by { assert free.value !in old(users).Keys; }
        if !onCurve(r.data) {
          return Reply(Crashed(ValueError), None, None);
        }
        credentials := credentials[r.kind := creds[r.index := Credential(free.value, Key(r.data), fabric, fabric)]];
        var saved := SaveState();
        return if saved.Success? then Reply(InvalidCommand, free, next) else Reply(Crashed(saved.error), None, None);
      } else if op == Add {
        if r.index in creds {
          return Reply(Occupied, None, next);
        }
        if r.user.value !in users {
          return Reply(InvalidCommand, None, next);
        }
        if |r.data| != 65 {
          return Reply(InvalidCommand, None, next);
        }
        if users[r.user.value].creator != fabric {
          return Reply(InvalidCommand, None, next);
        }
        if !onCurve(r.data) {
          return Reply(Crashed(ValueError), None, None);
        }
        credentials := credentials[r.kind := creds[r.index := Credential(r.user.value, Key(r.data), fabric, fabric)]];
        var saved := SaveState();
        return if saved.Success? then Reply(Accepted, None, next) else Reply(Crashed(saved.error), None, None);
      } else if op == Modify && r.user.None? {
        return Reply(InvalidCommand, None, next);
      } else if op == Modify {
        if r.index !in creds {
          return Reply(InvalidCommand, None, next);
        }
        var c := creds[r.index];
        if c.user != r.user.value {
          return Reply(InvalidCommand, None, next);
        }
        if c.creator != fabric {
          return Reply(InvalidCommand, None, next);
        }
        credentials := credentials[r.kind := creds[r.index := c.(data := Raw(r.data))]];
        var saved := SaveState();
        return if saved.Success? then Reply(Accepted, None, next) else Reply(Crashed(saved.error), None, None);
      } else {
        return Reply(InvalidCommand, None, None);
      }
    }

    /**
     None for a type without credentials. A number that is no type raises, and so does a credential whose data
     are plain octets.
     */
    method HandleGetCredentialStatus(kind: int, index: int) returns (r: Result<Option<CredentialAnswer>>)
      ensures r.Failure? <==> !ValidCredentialType(kind) || RawAt(Abs(), kind, index)
      ensures r.Failure? ==> r.error == if ValidCredentialType(kind) then AttributeError else ValueError
      ensures r.Success? ==> (r.value.Some? <==> kind in credentials)
      ensures r.Success? && r.value.Some? ==>
                && r.value.value.next == NextAbove(credentials[kind].Keys, index)
                && r.value.value.credential == if index in credentials[kind] then Some(credentials[kind][index])
                   else None
    {
      hide NextAbove;
      if !ValidCredentialType(kind) {
        return Failure(ValueError);
      }
      if kind !in credentials {
        return Success(None);
      }
      var next := NextOccupied(credentials[kind].Keys, index);
      if index !in credentials[kind] {
        return Success(Some(CredentialAnswer(None, next)));
      }
      var c := credentials[kind][index];
      if c.data.Raw? {
        return Failure(AttributeError);
      }
      return Success(Some(CredentialAnswer(Some(c), next)));
    }

    method HandleClearCredential(which: Option<(int, int)>) returns (a: Answer)
      modifies this
      ensures (Abs(), a) == ClearCredential(old(Abs()), which)
    {
      if which.None? {
        credentials := EMPTY;
        var saved := SaveState();
        return if saved.Success? then Accepted else Crashed(saved.error);
      }
      var (kind, index) := which.value;
      if !ValidCredentialType(kind) {
        return Crashed(ValueError);
      }
      if index == ALL {
        if kind !in credentials {
          return InvalidCommand;
        }
        credentials := credentials[kind := map[]];
        var saved := SaveState();
        return if saved.Success? then Accepted else Crashed(saved.error);
      }
      if kind !in credentials {
        return Crashed(KeyError);
      }
      if index !in credentials[kind] {
        return InvalidCommand;
      }
      credentials := credentials[kind := credentials[kind] - {index}];
      var saved := SaveState();
      return if saved.Success? then Accepted else Crashed(saved.error);
    }
  }
}
