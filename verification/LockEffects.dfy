/**
 What each lock command leaves in the tables, entry by entry, with the numbers of the protocol (the enumerations in
 matter_aliro/matter/encoding/protocol_messages.py).
 */
module LockEffects {
  import opened Wrappers
  import opened Bytes
  import opened Sets
  import opened DoorLock

  /** No user but the one at the index has come, gone or changed. */
  ghost predicate UsersSameBut(s: Lock, t: Lock, index: int) {
    forall i | i != index :: (i in t.users <==> i in s.users) && (i in s.users ==> t.users[i] == s.users[i])
  }

  /** No credential but the one of the type at the index has come, gone or changed. */
  ghost predicate CredentialsSameBut(s: Lock, t: Lock, kind: int, index: int) {
    && t.credentials.Keys == s.credentials.Keys
    && forall k, i | k in s.credentials && (k != kind || i != index) ::
         && (i in t.credentials[k] <==> i in s.credentials[k])
         && (i in s.credentials[k] ==> t.credentials[k][i] == s.credentials[k][i])
  }

  /** A field of a new user is as sent; null and zero leave the default. */
  predicate Given(sent: Option<int>, stored: int, default: int) {
    if sent == None || sent == Some(0) then stored == default else sent == Some(stored)
  }

  predicate StatusKnown(f: Option<int>) {
    f.None? || f.value in {0, 1, 3}
  }

  predicate TypeKnown(f: Option<int>) {
    f.None? || f.value in {0, 4, 5, 6, 7}
  }

  predicate RuleKnown(f: Option<int>) {
    f.None? || f.value in {0, 1, 2}
  }

  /** The answer when the change is made: success, unless something stored cannot be saved. */
  predicate Answers(a: Answer, savable: bool) {
    a == if savable then Accepted else Crashed(AttributeError)
  }

  // ---------------------------------------------------------------------- users

  /** Exactly when a user is added, and with which fields. */
  lemma UserAdded(s: Lock, index: int, f: UserFields, fabric: int)
    ensures var (t, a) := SetUser(s, Add, index, f, fabric);
            var known := StatusKnown(f.status) && TypeKnown(f.userType) && RuleKnown(f.rule);
            && UsersSameBut(s, t, index) && t.credentials == s.credentials
            && (index in s.users ==> a == Occupied && t == s)
            && (index !in s.users && !known ==> a == Crashed(ValueError) && t == s)
            && (index !in s.users && known ==>
                  && Answers(a, Savable(s)) && index in t.users
                  && var u := t.users[index];
                     && u.name == f.name.GetOr("") && Given(f.uniqueId, u.uniqueId, 0xFFFF_FFFF)
                     && Given(f.status, u.status, 1) && Given(f.userType, u.userType, 0) && Given(f.rule, u.rule, 0)
                     && u.creator == fabric && u.modifier == fabric)
  {
  }

  /**
   Exactly when a user is modified, and how. An unknown number stops the changes where it stands in the order
   status, type, rule, and the ones before it stay made.
   */
  lemma UserModified(s: Lock, index: int, f: UserFields, fabric: int)
    ensures var (t, a) := SetUser(s, Modify, index, f, fabric);
            var may := index in s.users && (fabric == s.users[index].creator || (f.name.None? && f.uniqueId.None?));
            && UsersSameBut(s, t, index) && t.credentials == s.credentials
            && (!may ==> a == InvalidCommand && t == s)
            && (may ==>
                  && index in t.users
                  && var w, u := s.users[index], t.users[index];
                     var status := StatusKnown(f.status);
                     var ty := status && TypeKnown(f.userType);
                     var rule := ty && RuleKnown(f.rule);
                     && u.name == f.name.GetOr(w.name) && u.uniqueId == f.uniqueId.GetOr(w.uniqueId)
                     && u.status == (if status then f.status.GetOr(w.status) else w.status)
                     && u.userType == (if ty then f.userType.GetOr(w.userType) else w.userType)
                     && u.rule == (if rule then f.rule.GetOr(w.rule) else w.rule)
                     && u.creator == w.creator && u.modifier == (if rule then fabric else w.modifier)
                     && if rule then Answers(a, Savable(s)) else a == Crashed(ValueError))
  {
  }

  lemma OtherOperationsRefused(s: Lock, index: int, f: UserFields, r: CredentialRequest, onCurve: seq<byte> -> bool,
                               fabric: int)
    ensures SetUser(s, Other, index, f, fabric) == (s, InvalidCommand)
    ensures SetCredential(s, Other, r, onCurve, fabric) ==
            (s, if 0 <= r.kind <= 8 then InvalidCommand else Crashed(ValueError))
  {
  }

  /** The index 0xFFFE stands for all users, and takes all credentials with them. */
  lemma AllUsersCleared(s: Lock, kind: int)
    ensures var (t, a) := ClearUser(s, 0xFFFE);
            && a == Accepted && t.users == map[]
            && (kind in t.credentials <==> 6 <= kind <= 8) && (kind in t.credentials ==> t.credentials[kind] == map[])
  {
  }

  /** The answer to clearing one user; which credentials go is told by `ClearUserExactly`. */
  lemma UserCleared(s: Lock, index: int)
    requires index != 0xFFFE
    ensures index in s.users ==> Answers(ClearUser(s, index).1, Savable(ClearUser(s, index).0))
    ensures index !in s.users ==> ClearUser(s, index) == (s, InvalidCommand)
  {
  }

  // ---------------------------------------------------------------------- credentials

  /** Exactly when a credential is added to a user, and what is stored. */
  lemma CredentialAdded(s: Lock, r: CredentialRequest, onCurve: seq<byte> -> bool, fabric: int)
    requires r.user.Some?
    ensures var (t, a) := SetCredential(s, Add, r, onCurve, fabric);
            var free := r.kind in s.credentials && r.index !in s.credentials[r.kind];
            var own := r.user.value in s.users && s.users[r.user.value].creator == fabric;
            var stored := 0 <= r.kind <= 8 && free && own && |r.data| == 65 && onCurve(r.data);
            && t.users == s.users && CredentialsSameBut(s, t, r.kind, r.index)
            && (stored ==>
                  && r.index in t.credentials[r.kind]
                  && t.credentials[r.kind][r.index] == Credential(r.user.value, Key(r.data), fabric, fabric)
                  && Answers(a, Savable(s)))
            && (!stored ==>
                  && t == s
                  && a == if !(0 <= r.kind <= 8) then Crashed(ValueError)
                          else if r.kind in s.credentials && !free then Occupied
                          else if free && own && |r.data| == 65 then Crashed(ValueError) else InvalidCommand)
  {
    hide Savable;
    var t := SetCredential(s, Add, r, onCurve, fabric).0;
    assert t != s && r.kind in s.credentials ==> (Savable(t) <==> Savable(s)) by {
      KeyKeepsSavable(s, r, Credential(r.user.value, Key(r.data), fabric, fabric));
    }
  }

  lemma KeyKeepsSavable(s: Lock, r: CredentialRequest, c: Credential)
    ensures c.data.Key? && r.kind in s.credentials && r.index !in s.credentials[r.kind] ==>
              (Savable(Put(s, r.kind, r.index, c)) <==> Savable(s))
  {
    if c.data.Key? && r.kind in s.credentials && r.index !in s.credentials[r.kind] {
      var t := Put(s, r.kind, r.index, c);
      assert forall k, i | k in s.credentials && i in s.credentials[k] :: t.credentials[k][i] == s.credentials[k][i];
    }
  }

  /**
   What is stored without a user: a new one under the least free index, with the status and type sent, and the
   key.
   */
  lemma CredentialAddedAlone(s: Lock, r: CredentialRequest, onCurve: seq<byte> -> bool, fabric: int, n: int)
    requires r.user.None? && r.kind in s.credentials && 0 <= r.kind <= 8 && r.index !in s.credentials[r.kind]
    requires |r.data| == 65 && StatusKnown(r.status) && TypeKnown(r.userType)
    requires 1 <= n <= 65534 && n !in s.users && forall i | 1 <= i < n :: i in s.users
    ensures var (t, a) := SetCredential(s, Add, r, onCurve, fabric);
            && UsersSameBut(s, t, n) && CredentialsSameBut(s, t, r.kind, r.index) && n in t.users
            && t.users[n].name == "" && t.users[n].uniqueId == 0xFFFF_FFFF && t.users[n].rule == 0
            && Given(r.status, t.users[n].status, 1) && Given(r.userType, t.users[n].userType, 0)
            && t.users[n].creator == fabric && t.users[n].modifier == fabric
            && (r.index in t.credentials[r.kind] <==> onCurve(r.data))
            && (onCurve(r.data) ==> t.credentials[r.kind][r.index] == Credential(n, Key(r.data), fabric, fabric))
            && a == if !onCurve(r.data) then Crashed(ValueError)
                    else if Savable(s) then InvalidCommand else Crashed(AttributeError)
  {
    var free := FirstFree(s.users.Keys, MAX_USER);
    assert free == Some(n) by {
      assert free.Some? ==> free.value >= n && free.value <= n;
    }
    hide Savable, FirstFree;
    var u := NewUser(UserFields(None, None, r.status, r.userType, None), fabric).value;
    var t := s.(users := s.users[n := u]);
    KeyKeepsSavable(t, r, Credential(n, Key(r.data), fabric, fabric));
    assert Savable(t) <==> Savable(s) by { UsersDoNotMatter(s, t); }
  }

  /** Every answer to adding without a user when no user is made; the 65534 user indexes may all be taken. */
  lemma AloneRefused(s: Lock, r: CredentialRequest, onCurve: seq<byte> -> bool, fabric: int)
    requires r.user.None? && 0 <= r.kind <= 8
    ensures var (t, a) := SetCredential(s, Add, r, onCurve, fabric);
            var full := forall i | 1 <= i <= 65534 :: i in s.users;
            && (r.kind !in s.credentials ==> t == s && a == InvalidCommand)
            && (r.kind in s.credentials && r.index in s.credentials[r.kind] ==> t == s && a == Occupied)
            && (r.kind in s.credentials && r.index !in s.credentials[r.kind] ==>
                  && (|r.data| != 65 ==> t == s && a == InvalidCommand)
                  && (|r.data| == 65 && full ==> t == s && a == Crashed(StopIteration))
                  && (|r.data| == 65 && !full && !(StatusKnown(r.status) && TypeKnown(r.userType)) ==>
                        t == s && a == Crashed(ValueError)))
  {
    hide Savable;
  }

  /** Every answer to replacing data that is refused. */
  lemma ReplacementRefused(s: Lock, r: CredentialRequest, onCurve: seq<byte> -> bool, fabric: int)
    requires 0 <= r.kind <= 8
    requires r.user.None? || r.kind !in s.credentials || r.index !in s.credentials[r.kind]
             || s.credentials[r.kind][r.index].user != r.user.value || s.credentials[r.kind][r.index].creator != fabric
    ensures SetCredential(s, Modify, r, onCurve, fabric) == (s, InvalidCommand)
  {
  }

  lemma UsersDoNotMatter(s: Lock, t: Lock)
    requires s.credentials == t.credentials
    ensures Savable(s) <==> Savable(t)
  {
  }

  /** The reply names the user that was made, if one was, and the least stored index above the number of the type. */
  lemma ReplyTells(s: Lock, op: Operation, r: CredentialRequest, onCurve: seq<byte> -> bool, fabric: int)
    requires op != Other && r.kind in s.credentials && !SetCredentialReply(s, op, r, onCurve, fabric).answer.Crashed?
    ensures var t := SetCredential(s, op, r, onCurve, fabric).0;
            var reply := SetCredentialReply(s, op, r, onCurve, fabric);
            && reply.answer == SetCredential(s, op, r, onCurve, fabric).1
            && IsNext(s.credentials[r.kind].Keys, r.kind, reply.next)
            && (reply.user.None? <==> t.users == s.users)
            && (reply.user.Some? ==> t.users.Keys == s.users.Keys + {reply.user.value} && reply.user.value !in s.users)
  {
    hide Savable, FirstFree, NextAbove, NewUser;
  }

  /** Clearing one credential takes that one, and leaves every other and every user. */
  lemma OneCleared(s: Lock, kind: int, index: int)
    requires index != 0xFFFE
    ensures var (t, a) := ClearCredential(s, Some((kind, index)));
            var there := 0 <= kind <= 8 && kind in s.credentials && index in s.credentials[kind];
            && t.users == s.users && CredentialsSameBut(s, t, kind, index)
            && (there ==> index !in t.credentials[kind] && Answers(a, Savable(t)))
            && (!there ==>
                  && t == s
                  && a == if !(0 <= kind <= 8) then Crashed(ValueError)
                          else if kind !in s.credentials then Crashed(KeyError) else InvalidCommand)
  {
    hide Savable;
  }

  /** The index 0xFFFE stands for all credentials of the type, and null for those of all types. */
  lemma ManyCleared(s: Lock, kind: int, k: int)
    ensures var (t, a) := ClearCredential(s, Some((kind, 0xFFFE)));
            var there := 0 <= kind <= 8 && kind in s.credentials;
            && t.users == s.users && t.credentials.Keys == s.credentials.Keys
            && (k in s.credentials ==> t.credentials[k] == if k == kind && there then map[] else s.credentials[k])
            && (there ==> Answers(a, Savable(t)))
            && (!there ==> t == s && a == if 0 <= kind <= 8 then InvalidCommand else Crashed(ValueError))
    ensures var (t, a) := ClearCredential(s, None);
            && a == Accepted && t.users == s.users && (k in t.credentials <==> 6 <= k <= 8)
            && (k in t.credentials ==> t.credentials[k] == map[])
  {
    var t := ClearCredential(s, None).0;
    assert Savable(t);
    hide Savable;
  }
}
