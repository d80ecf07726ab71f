/**
 Which password a client sends, and which one it keeps (src/client.rs).

 The session password is chosen from five places. A tag remembers whether it came from an address
 book, because a shared password must not be stored. SHA-256 is a parameter.
 */
module Logins {
  import opened Options

  type Bytes = seq<int>

  /** A hash function whose digests are not empty. */
  ghost predicate IsHash(sha: Bytes -> Bytes) {
    forall x {:trigger sha(x)} :: sha(x) != []
  }

  datatype Source = PersonalAb(hash: Bytes) | SharedAb(plain: Bytes) | Undefined {
    predicate IsPersonal(password: Bytes) {
      password != [] && PersonalAb? && hash == password
    }

    predicate IsShared(sha: Bytes -> Bytes, password: Bytes, salt: Bytes) {
      password != [] && SharedAb? && password == sha(plain + salt)
    }
  }

  datatype Challenge = Challenge(salt: Bytes, challenge: Bytes)

  /**
   The fields of LoginConfigHandler that take part. `config` is the stored password as loaded with
   the session, `stored` the one in the peer's file.
   */
  datatype Session = Session(hash: Challenge, password: Bytes, source: Source, remember: bool,
                             config: Bytes, stored: Bytes, switchUuid: Option<string>, shared: Option<Bytes>)

  // ----- the choice, on values

  datatype Candidate = Candidate(password: Bytes, source: Option<Source>)

  /** The first candidate with a password, and the tag it brings along, if any. */
  function FirstNonEmpty(cs: seq<Candidate>): Candidate {
    if cs == [] then Candidate([], None)
    else if cs[0].password != [] then cs[0]
    else FirstNonEmpty(cs[1..])
  }

  /** The choice among five, spelt out. */
  lemma FirstOfFive(cs: seq<Candidate>)
    requires |cs| == 5
    ensures FirstNonEmpty(cs) ==
            if cs[0].password != [] then cs[0] else if cs[1].password != [] then cs[1]
            else if cs[2].password != [] then cs[2] else if cs[3].password != [] then cs[3]
            else if cs[4].password != [] then cs[4] else Candidate([], None)
  {
    var c1 := cs[1..];
    var c2 := c1[1..];
    var c3 := c2[1..];
    var c4 := c3[1..];
    assert c1[0] == cs[1] && c2[0] == cs[2] && c3[0] == cs[3] && c4[0] == cs[4] && c4[1..] == [];
    assert FirstNonEmpty(c4) == if cs[4].password != [] then cs[4] else FirstNonEmpty([]);
    assert FirstNonEmpty(c2) == if cs[2].password != [] then cs[2] else FirstNonEmpty(c3);
  }

  lemma FirstOfTwo(c0: Candidate, c1: Candidate)
    ensures FirstNonEmpty([c0, c1]) ==
            if c0.password != [] then c0 else if c1.password != [] then c1 else Candidate([], None)
  {
    assert [c0, c1][1..] == [c1] && [c1][1..] == [];
    assert FirstNonEmpty([c1]) == if c1.password != [] then c1 else FirstNonEmpty([]);
  }

  function Salted(sha: Bytes -> Bytes, plain: Bytes, salt: Bytes): Bytes {
    if plain == [] then [] else sha(plain + salt)
  }

  /** Shared address book, last password, preset, stored, personal address book: in this order. */
  function Candidates(sha: Bytes -> Bytes, s: Session, preset: Bytes, salt: Bytes, personal: Bytes): seq<Candidate> {
    var plain := if s.shared.Some? then s.shared.value else [];
    [ Candidate(Salted(sha, plain, salt), Some(SharedAb(plain))),
      Candidate(s.password, None),
      Candidate(Salted(sha, preset, salt), Some(Undefined)),
      Candidate(s.config, Some(Undefined)),
      Candidate(personal, Some(PersonalAb(personal))) ]
  }

  function Choose(s: Session, c: Candidate): Session {
    s.(password := c.password, source := if c.source.Some? then c.source.value else s.source)
  }

  /** A step of a session: the messages and calls that touch the password. */
  datatype Event =
    | Initialize(switchUuid: Option<string>, shared: Option<Bytes>)
    | HandleHash(preset: Bytes, hash: Challenge, personal: Bytes)
    | LoginError(wrongPassword: bool)
    | LoginFromUi(plain: Bytes, keep: bool)
    | PeerInfo

  function OnHash(sha: Bytes -> Bytes, isUuid: string -> bool, s: Session,
                  preset: Bytes, hash: Challenge, personal: Bytes): Session
  {
    var t := s.(hash := hash, switchUuid := None);
    if s.switchUuid.Some? && isUuid(s.switchUuid.value) then t.(source := Undefined)
    else Choose(t, FirstNonEmpty(Candidates(sha, s, preset, hash.salt, personal))).(shared := None)
  }

  function OnUi(sha: Bytes -> Bytes, s: Session, plain: Bytes, keep: bool): Session {
    if plain != [] then s.(password := sha(plain + s.hash.salt), source := Undefined, remember := keep)
    else Choose(s, FirstNonEmpty([Candidate(s.password, None), Candidate(s.config, Some(Undefined))]))
  }

  function OnPeerInfo(sha: Bytes -> Bytes, s: Session): Session {
    var kept :=
      if s.remember then
        if s.password != [] && !s.source.IsShared(sha, s.password, s.hash.salt) then s.password else s.stored
      else if s.source.IsPersonal(s.password) then s.password
      else [];
    s.(stored := kept, config := kept)
  }

  function Step(sha: Bytes -> Bytes, isUuid: string -> bool, s: Session, e: Event): Session {
    match e
    case Initialize(uuid, shared) =>
      s.(config := s.stored, remember := s.stored != [], switchUuid := uuid, shared := shared)
    case HandleHash(preset, hash, personal) => OnHash(sha, isUuid, s, preset, hash, personal)
    case LoginError(wrong) => if wrong then s.(password := []) else s
    case LoginFromUi(plain, keep) => OnUi(sha, s, plain, keep)
    case PeerInfo => OnPeerInfo(sha, s)
  }

  // ----- the handlers, as the code runs them

  /** A peer in the personal address book: its id and its base64-decoded hash, if it decodes. */
  datatype AbPeer = AbPeer(id: string, hash: Option<Bytes>)

  /** What `try_get_password_from_personal_ab` finds for the id: the first such peer's hash, if any. */
  function PersonalPassword(peers: seq<AbPeer>, id: string): Bytes {
    if peers == [] then []
    else if peers[0].id == id then (if peers[0].hash.Some? then peers[0].hash.value else [])
    else PersonalPassword(peers[1..], id)
  }

  class LoginConfigHandler {
    const sha: Bytes -> Bytes
    const isUuid: string -> bool
    var hash: Challenge
    var password: Bytes
    var remember: bool
    var config: Bytes
    var stored: Bytes
    var switchUuid: Option<string>
    var source: Source
    var shared: Option<Bytes>

    function View(): Session
      reads this
    {
      Session(hash, password, source, remember, config, stored, switchUuid, shared)
    }

    constructor (sha: Bytes -> Bytes, isUuid: string -> bool, stored: Bytes)
      ensures this.sha == sha && this.isUuid == isUuid
      ensures View() == Session(Challenge([], []), [], Undefined, false, [], stored, None, None)
    {
      this.sha, this.isUuid, this.stored := sha, isUuid, stored;
      hash, password, remember, config := Challenge([], []), [], false, [];
      switchUuid, source, shared := None, Undefined, None;
    }

    /** The part of `initialize` that concerns passwords. */
    method Initialize(uuid: Option<string>, sharedPassword: Option<Bytes>)
      modifies this
      ensures View() == Step(sha, isUuid, old(View()), Event.Initialize(uuid, sharedPassword))
    {
      config := stored;
      remember := config != [];
      switchUuid := uuid;
      shared := sharedPassword;
    }

    /** `try_get_password_from_personal_ab`: returns a password, or nothing, and tags the session. */
    method TryPersonalAb(signedIn: bool, peers: seq<AbPeer>, id: string) returns (found: Bytes)
      modifies `source
      ensures found == if signedIn then PersonalPassword(peers, id) else []
      ensures source == if found != [] then PersonalAb(found) else old(source)
    {
      found := [];
      if signedIn {
        var i := 0;
        while i < |peers| && peers[i].id != id
          invariant 0 <= i <= |peers|
          invariant PersonalPassword(peers, id) == PersonalPassword(peers[i..], id)
        {
          i := i + 1;
        }
        if i < |peers| {
          if peers[i].hash.Some? {
            if peers[i].hash.value != [] {
              found := peers[i].hash.value;
              source := PersonalAb(found);
            }
          }
        }
      }
    }

    /** The cascade in `handle_hash`. */
    method ChoosePassword(preset: Bytes, salt: Bytes, signedIn: bool, peers: seq<AbPeer>, id: string)
      returns (p: Bytes)
      requires IsHash(sha)
      modifies `source, `shared
      ensures var personal := if signedIn then PersonalPassword(peers, id) else [];
              var c := FirstNonEmpty(Candidates(sha, old(View()), preset, salt, personal));
              p == c.password && source == (if c.source.Some? then c.source.value else old(source))
      ensures shared == None
    {
      ghost var personal := if signedIn then PersonalPassword(peers, id) else [];
      FirstOfFive(Candidates(sha, View(), preset, salt, personal));
      p := password;
      if p == [] && preset != [] {
        p := sha(preset + salt);
        source := Undefined;
      }
      var sharedPassword := shared;
      shared := None;
      if sharedPassword.Some? && sharedPassword.value != [] {
        p := sha(sharedPassword.value + salt);
        source := SharedAb(sharedPassword.value);
      }
      if p == [] {
        p := config;
        if p != [] {
          source := Undefined;
        }
      }
      if p == [] {
        p := TryPersonalAb(signedIn, peers, id);
      }
    }

    /** `handle_hash`; `answer` is what is sent, or nothing on the way through a switch request. */
    method HandleHash(preset: Bytes, newHash: Challenge, signedIn: bool, peers: seq<AbPeer>, id: string)
      returns (answer: Option<Bytes>)
      requires IsHash(sha)
      modifies this
      ensures var personal := if signedIn then PersonalPassword(peers, id) else [];
              View() == OnHash(sha, isUuid, old(View()), preset, newHash, personal)
      ensures answer.None? <==> old(switchUuid).Some? && isUuid(old(switchUuid).value)
      ensures answer.Some? ==> answer.value == if password == [] then [] else sha(password + newHash.challenge)
    {
      hash := newHash;
      var uuid := switchUuid;
      switchUuid := None;
      if uuid.Some? && isUuid(uuid.value) {
        source := Undefined;
        return None;
      }
      password := ChoosePassword(preset, newHash.salt, signedIn, peers, id);
      answer := Some(if password == [] then [] else sha(password + newHash.challenge));
    }

    /** `handle_login_error`, for a missing or wrong password and for any other error. */
    method HandleLoginError(wrongPassword: bool)
      modifies `password
      ensures View() == Step(sha, isUuid, old(View()), LoginError(wrongPassword))
    {
      if wrongPassword {
        password := [];
      }
    }

    /** `handle_login_from_ui`. Unlike `handle_hash` it sends a digest even of an empty password. */
    method HandleLoginFromUi(plain: Bytes, keep: bool) returns (answer: Bytes)
      modifies this
      ensures View() == OnUi(sha, old(View()), plain, keep)
      ensures answer == sha(password + hash.challenge)
    {
      FirstOfTwo(Candidate(password, None), Candidate(config, Some(Undefined)));
      var p;
      if plain == [] {
        p := password;
        if p == [] {
          p := config;
          if p != [] {
            source := Undefined;
          }
        }
      } else {
        source := Undefined;
        p := sha(plain + hash.salt);
        remember := keep;
      }
      password := p;
      answer := sha(p + hash.challenge);
    }

    /** The part of `handle_peer_info` that stores the password. */
    method HandlePeerInfo()
      modifies this
      ensures View() == OnPeerInfo(sha, old(View()))
    {
      var kept := stored;
      if remember {
        if password != [] && password != stored && !source.IsShared(sha, password, hash.salt) {
          kept := password;
        }
      } else {
        if source.IsPersonal(password) {
          kept := password;
        } else if stored != [] {
          kept := [];
        }
      }
      stored := kept;
      config := kept;
    }
  }

  // ----- runs with one peer, whose salt does not change

  function After(sha: Bytes -> Bytes, isUuid: string -> bool, s: Session, es: seq<Event>): Session {
    if es == [] then s else Step(sha, isUuid, After(sha, isUuid, s, es[..|es| - 1]), es[|es| - 1])
  }

  function Start(stored: Bytes): Session {
    Session(Challenge([], []), [], Undefined, false, [], stored, None, None)
  }

  ghost predicate FixedSalt(es: seq<Event>, salt: Bytes) {
    forall i :: 0 <= i < |es| && es[i].HandleHash? ==> es[i].hash.salt == salt
  }

  /** A password that is tagged with its origin is the one that its origin gives. */
  ghost predicate Tagged(sha: Bytes -> Bytes, s: Session, salt: Bytes) {
    s.password != [] ==>
      match s.source
      case PersonalAb(p) => s.password == p && s.hash.salt == salt
      case SharedAb(p) => s.password == sha(p + salt) && s.hash.salt == salt
      case Undefined => true
  }

  lemma HashTags(sha: Bytes -> Bytes, isUuid: string -> bool, s: Session, preset: Bytes, hash: Challenge, personal: Bytes)
    requires Tagged(sha, s, hash.salt)
    ensures Tagged(sha, OnHash(sha, isUuid, s, preset, hash, personal), hash.salt)
  {
    FirstOfFive(Candidates(sha, s, preset, hash.salt, personal));
  }

  lemma {:induction false} TagsHold(sha: Bytes -> Bytes, isUuid: string -> bool, stored: Bytes, es: seq<Event>, salt: Bytes)
    requires FixedSalt(es, salt)
    ensures Tagged(sha, After(sha, isUuid, Start(stored), es), salt)
  {
    if es != [] {
      var front, e := es[..|es| - 1], es[|es| - 1];
      TagsHold(sha, isUuid, stored, front, salt);
      var s := After(sha, isUuid, Start(stored), front);
      if e.HandleHash? {
        HashTags(sha, isUuid, s, e.preset, e.hash, e.personal);
      } else if e.LoginFromUi? {
        FirstOfTwo(Candidate(s.password, None), Candidate(s.config, Some(Undefined)));
      }
    }
  }

  /**
   In every run with one salt the comparison of digests can be left out: what is stored depends on
   the tag alone.
   */
  lemma StoredByTag(sha: Bytes -> Bytes, isUuid: string -> bool, stored: Bytes, es: seq<Event>, salt: Bytes)
    requires FixedSalt(es, salt)
    ensures var s := After(sha, isUuid, Start(stored), es);
            OnPeerInfo(sha, s).stored ==
            if s.remember then (if s.password != [] && !s.source.SharedAb? then s.password else s.stored)
            else if s.password != [] && s.source.PersonalAb? then s.source.hash
            else []
  {
    TagsHold(sha, isUuid, stored, es, salt);
  }

  // ----- a shared password is used at most once for each initialization

  /** A valid switch request is pending when the event comes, so that it is answered instead. */
  predicate Switches(isUuid: string -> bool, s: Session, e: Event) {
    e.HandleHash? && s.switchUuid.Some? && isUuid(s.switchUuid.value)
  }

  /** The choice falls on the shared address book. */
  predicate UsesShared(isUuid: string -> bool, s: Session, e: Event) {
    e.HandleHash? && !Switches(isUuid, s, e) && s.shared.Some? && s.shared.value != []
  }

  ghost predicate SwitchesAt(sha: Bytes -> Bytes, isUuid: string -> bool, s: Session, es: seq<Event>, i: int) {
    0 <= i < |es| && Switches(isUuid, After(sha, isUuid, s, es[..i]), es[i])
  }

  ghost predicate UsesSharedAt(sha: Bytes -> Bytes, isUuid: string -> bool, s: Session, es: seq<Event>, i: int) {
    0 <= i < |es| && UsesShared(isUuid, After(sha, isUuid, s, es[..i]), es[i])
  }

  /** Nothing is pending after a use, and nothing becomes pending but by an initialization. */
  lemma NothingPending(sha: Bytes -> Bytes, isUuid: string -> bool, s: Session, e: Event)
    requires UsesShared(isUuid, s, e) || (s.shared.None? && s.switchUuid.None? && !e.Initialize?)
    ensures var t := Step(sha, isUuid, s, e);
            t.shared.None? && t.switchUuid.None?
  {
  }

  lemma {:induction false} SharedConsumed(sha: Bytes -> Bytes, isUuid: string -> bool, s: Session, es: seq<Event>, i: nat)
    requires UsesSharedAt(sha, isUuid, s, es, i)
    requires forall k :: i < k < |es| ==> !es[k].Initialize?
    ensures After(sha, isUuid, s, es).shared.None? && After(sha, isUuid, s, es).switchUuid.None?
  {
    var n := |es| - 1;
    var front := es[..n];
    if i < n {
      assert front[..i] == es[..i];
      SharedConsumed(sha, isUuid, s, front, i);
    }
    NothingPending(sha, isUuid, After(sha, isUuid, s, front), es[n]);
  }

  /** In every run: between two uses of a shared password the session is initialized again. */
  lemma SharedOncePerInitialize(sha: Bytes -> Bytes, isUuid: string -> bool, s: Session, es: seq<Event>, i: nat, j: nat)
    requires i < j && UsesSharedAt(sha, isUuid, s, es, i) && UsesSharedAt(sha, isUuid, s, es, j)
    ensures exists k :: i < k < j && es[k].Initialize?
  {
    var front := es[..j];
    assert front[..i] == es[..i];
    if forall k :: i < k < |front| ==> !front[k].Initialize? {
      SharedConsumed(sha, isUuid, s, front, i);
    } else {
      var k :| i < k < |front| && front[k].Initialize?;
      assert es[k].Initialize?;
    }
  }

  // ----- where the password came from, and whether it is stored

  /** The event puts another password in the place of a non-empty one, or forgets it. */
  predicate Replaces(isUuid: string -> bool, s: Session, e: Event) {
    || UsesShared(isUuid, s, e)
    || (e.LoginError? && e.wrongPassword)
    || (e.LoginFromUi? && e.plain != [])
  }

  ghost predicate ReplacesAt(sha: Bytes -> Bytes, isUuid: string -> bool, s: Session, es: seq<Event>, k: int) {
    0 <= k < |es| && Replaces(isUuid, After(sha, isUuid, s, es[..k]), es[k])
  }

  /** The password in use was taken from the shared address book at position `i`, as plain text `p`. */
  ghost predicate FromShared(sha: Bytes -> Bytes, isUuid: string -> bool, s: Session, es: seq<Event>, i: int, p: Bytes) {
    && UsesSharedAt(sha, isUuid, s, es, i) && After(sha, isUuid, s, es[..i]).shared == Some(p)
    && forall k :: i < k < |es| ==> !ReplacesAt(sha, isUuid, s, es, k)
  }

  ghost predicate SwitchedSince(sha: Bytes -> Bytes, isUuid: string -> bool, s: Session, es: seq<Event>, i: int) {
    exists k :: i < k < |es| && SwitchesAt(sha, isUuid, s, es, k)
  }

  lemma SharedChosen(sha: Bytes -> Bytes, isUuid: string -> bool, s: Session, e: Event)
    requires IsHash(sha) && UsesShared(isUuid, s, e)
    ensures var t := Step(sha, isUuid, s, e);
            t.password == sha(s.shared.value + e.hash.salt) && t.source == SharedAb(s.shared.value)
  {
    FirstOfFive(Candidates(sha, s, e.preset, e.hash.salt, e.personal));
  }

  /** What does not replace a password leaves its tag as well, except for a switch. */
  lemma PasswordKept(sha: Bytes -> Bytes, isUuid: string -> bool, s: Session, e: Event)
    requires s.password != [] && !Replaces(isUuid, s, e)
    ensures var t := Step(sha, isUuid, s, e);
            t.password == s.password && t.source == if Switches(isUuid, s, e) then Undefined else s.source
  {
    if e.HandleHash? {
      FirstOfFive(Candidates(sha, s, e.preset, e.hash.salt, e.personal));
    } else if e.LoginFromUi? {
      FirstOfTwo(Candidate(s.password, None), Candidate(s.config, Some(Undefined)));
    }
  }

  lemma PositionInFront(sha: Bytes -> Bytes, isUuid: string -> bool, s: Session, es: seq<Event>, k: int)
    requires 0 <= k < |es| - 1
    ensures var front := es[..|es| - 1];
            && (SwitchesAt(sha, isUuid, s, front, k) <==> SwitchesAt(sha, isUuid, s, es, k))
            && (ReplacesAt(sha, isUuid, s, front, k) <==> ReplacesAt(sha, isUuid, s, es, k))
            && (UsesSharedAt(sha, isUuid, s, front, k) <==> UsesSharedAt(sha, isUuid, s, es, k))
            && front[..k] == es[..k] && front[k] == es[k]
  {
    assert es[..|es| - 1][..k] == es[..k];
  }

  lemma SwitchedInFront(sha: Bytes -> Bytes, isUuid: string -> bool, s: Session, es: seq<Event>, i: nat)
    requires i < |es| - 1
    ensures SwitchedSince(sha, isUuid, s, es, i)
            <==> SwitchedSince(sha, isUuid, s, es[..|es| - 1], i) || SwitchesAt(sha, isUuid, s, es, |es| - 1)
  {
    var n := |es| - 1;
    if k :| i < k < |es| && SwitchesAt(sha, isUuid, s, es, k) {
      if k < n {
        PositionInFront(sha, isUuid, s, es, k);
      }
    }
    if k :| i < k < |es[..n]| && SwitchesAt(sha, isUuid, s, es[..n], k) {
      PositionInFront(sha, isUuid, s, es, k);
    }
  }

  lemma FromSharedInFront(sha: Bytes -> Bytes, isUuid: string -> bool, s: Session, es: seq<Event>, i: nat, p: Bytes)
    requires i < |es| - 1 && FromShared(sha, isUuid, s, es, i, p)
    ensures FromShared(sha, isUuid, s, es[..|es| - 1], i, p)
  {
    var front := es[..|es| - 1];
    PositionInFront(sha, isUuid, s, es, i);
    forall k | i < k < |front| ensures !ReplacesAt(sha, isUuid, s, front, k) {
      PositionInFront(sha, isUuid, s, es, k);
    }
  }

  /** In every run a shared password stays as it was made, and stays tagged until a switch is answered. */
  lemma {:induction false} SharedOrigin(sha: Bytes -> Bytes, isUuid: string -> bool, s: Session, es: seq<Event>, i: nat, p: Bytes)
    requires IsHash(sha) && FromShared(sha, isUuid, s, es, i, p)
    ensures var t := After(sha, isUuid, s, es);
            && t.password == sha(p + es[i].hash.salt)
            && t.source == if SwitchedSince(sha, isUuid, s, es, i) then Undefined else SharedAb(p)
  {
    var n := |es| - 1;
    if i == n {
      SharedChosen(sha, isUuid, After(sha, isUuid, s, es[..n]), es[n]);
    } else {
      FromSharedInFront(sha, isUuid, s, es, i, p);
      SwitchedInFront(sha, isUuid, s, es, i);
      SharedOrigin(sha, isUuid, s, es[..n], i, p);
      assert !ReplacesAt(sha, isUuid, s, es, n);
      PasswordKept(sha, isUuid, After(sha, isUuid, s, es[..n]), es[n]);
    }
  }

  /**
   In every run: when the peer accepts a password that was taken from the shared address book at
   position `i`, it is kept out of the file if and only if no switch has been answered since and the
   salt of then and the salt of now give the same digest. What is in the file is then kept if the
   user asked to remember; if not, the file is emptied in any case.
   */
  lemma SharedIsNotStored(sha: Bytes -> Bytes, isUuid: string -> bool, s: Session, es: seq<Event>, i: nat, p: Bytes)
    requires IsHash(sha) && FromShared(sha, isUuid, s, es, i, p)
    ensures var t := After(sha, isUuid, s, es);
            var guarded := !SwitchedSince(sha, isUuid, s, es, i) && sha(p + es[i].hash.salt) == sha(p + t.hash.salt);
            && OnPeerInfo(sha, t).stored
               == (if !t.remember then [] else if guarded then t.stored else sha(p + es[i].hash.salt))
            && (t.remember && t.stored != t.password ==> (OnPeerInfo(sha, t).stored != t.password <==> guarded))
  {
    SharedOrigin(sha, isUuid, s, es, i, p);
  }

  /** A session as the program makes it: initialized once, at its start. */
  ghost predicate OneSession(es: seq<Event>) {
    forall k :: 1 <= k < |es| ==> !es[k].Initialize?
  }

  lemma {:induction false} NoSwitchSince(sha: Bytes -> Bytes, isUuid: string -> bool, s: Session, es: seq<Event>, i: nat, k: nat)
    requires OneSession(es) && UsesSharedAt(sha, isUuid, s, es, i) && i < k < |es|
    ensures !SwitchesAt(sha, isUuid, s, es, k)
  {
    var front := es[..k];
    assert front[..i] == es[..i];
    SharedConsumed(sha, isUuid, s, front, i);
  }

  /** In every session that is initialized once, the two digests alone decide. */
  lemma SharedInOneSession(sha: Bytes -> Bytes, isUuid: string -> bool, s: Session, es: seq<Event>, i: nat, p: Bytes)
    requires IsHash(sha) && OneSession(es) && FromShared(sha, isUuid, s, es, i, p)
    requires var t := After(sha, isUuid, s, es);
             t.remember && t.stored != t.password
    ensures var t := After(sha, isUuid, s, es);
            OnPeerInfo(sha, t).stored == t.stored <==> sha(p + es[i].hash.salt) == sha(p + t.hash.salt)
  {
    SharedOrigin(sha, isUuid, s, es, i, p);
    if k :| i < k < |es| && SwitchesAt(sha, isUuid, s, es, k) {
      NoSwitchSince(sha, isUuid, s, es, i, k);
    }
  }

  // ----- which password is chosen, typed, forgotten and used again

  /** The choice in `handle_hash`, case by case, in any state without a valid switch request. */
  lemma CascadeExactly(sha: Bytes -> Bytes, isUuid: string -> bool, s: Session, preset: Bytes, hash: Challenge, personal: Bytes)
    requires IsHash(sha) && !Switches(isUuid, s, HandleHash(preset, hash, personal))
    ensures var t := Step(sha, isUuid, s, HandleHash(preset, hash, personal));
            && t == s.(hash := hash, switchUuid := None, shared := None, password := t.password, source := t.source)
            && (t.password, t.source) ==
               if s.shared.Some? && s.shared.value != [] then
                 (sha(s.shared.value + hash.salt), SharedAb(s.shared.value))
               else if s.password != [] then (s.password, s.source)
               else if preset != [] then (sha(preset + hash.salt), Undefined)
               else if s.config != [] then (s.config, Undefined)
               else if personal != [] then (personal, PersonalAb(personal))
               else ([], s.source)
  {
    FirstOfFive(Candidates(sha, s, preset, hash.salt, personal));
  }

  /** With a valid switch request no password is chosen, and the request is used up. */
  lemma SwitchExactly(sha: Bytes -> Bytes, isUuid: string -> bool, s: Session, e: Event)
    requires Switches(isUuid, s, e)
    ensures Step(sha, isUuid, s, e) == s.(hash := e.hash, switchUuid := None, source := Undefined)
  {
  }

  /** The peer sends its last challenge at position `k`. */
  ghost predicate LastHashAt(es: seq<Event>, k: int) {
    0 <= k < |es| && es[k].HandleHash? && forall l :: k < l < |es| ==> !es[l].HandleHash?
  }

  /** `h` is the last challenge that the peer has sent, in the run or before it. */
  ghost predicate LastHash(s: Session, es: seq<Event>, h: Challenge) {
    && (forall k :: LastHashAt(es, k) ==> es[k].hash == h)
    && ((forall k :: !LastHashAt(es, k)) ==> h == s.hash)
  }

  lemma HashOfStep(sha: Bytes -> Bytes, isUuid: string -> bool, s: Session, e: Event)
    ensures Step(sha, isUuid, s, e).hash == if e.HandleHash? then e.hash else s.hash
  {
  }

  lemma {:induction false} HashByPosition(sha: Bytes -> Bytes, isUuid: string -> bool, s: Session, es: seq<Event>, h: Challenge)
    requires LastHash(s, es, h)
    ensures After(sha, isUuid, s, es).hash == h
  {
    if es != [] {
      var n := |es| - 1;
      HashOfStep(sha, isUuid, After(sha, isUuid, s, es[..n]), es[n]);
      if es[n].HandleHash? {
        assert LastHashAt(es, n);
      } else {
        LastHashInFront(s, es, h);
        HashByPosition(sha, isUuid, s, es[..n], h);
      }
    }
  }

  lemma LastHashInFront(s: Session, es: seq<Event>, h: Challenge)
    requires es != [] && !es[|es| - 1].HandleHash? && LastHash(s, es, h)
    ensures LastHash(s, es[..|es| - 1], h)
  {
    var front := es[..|es| - 1];
    forall k ensures LastHashAt(front, k) <==> LastHashAt(es, k) {
      assert forall l :: 0 <= l < |front| ==> front[l] == es[l];
    }
  }

  /** The password in use was typed at position `i`. */
  ghost predicate Typed(sha: Bytes -> Bytes, isUuid: string -> bool, s: Session, es: seq<Event>, i: int, p: Bytes, keep: bool) {
    && 0 <= i < |es| && es[i] == LoginFromUi(p, keep) && p != []
    && forall k :: i < k < |es| ==> !ReplacesAt(sha, isUuid, s, es, k)
  }

  lemma RememberKept(sha: Bytes -> Bytes, isUuid: string -> bool, s: Session, e: Event)
    requires !Replaces(isUuid, s, e) && !e.Initialize?
    ensures Step(sha, isUuid, s, e).remember == s.remember
  {
  }

  lemma TypedInFront(sha: Bytes -> Bytes, isUuid: string -> bool, s: Session, es: seq<Event>, i: nat, p: Bytes, keep: bool)
    requires i < |es| - 1 && Typed(sha, isUuid, s, es, i, p, keep)
    ensures Typed(sha, isUuid, s, es[..|es| - 1], i, p, keep)
    ensures !Replaces(isUuid, After(sha, isUuid, s, es[..|es| - 1]), es[|es| - 1])
  {
    var n := |es| - 1;
    var front := es[..n];
    forall k | i < k < |front| ensures !ReplacesAt(sha, isUuid, s, front, k) {
      PositionInFront(sha, isUuid, s, es, k);
    }
    assert !ReplacesAt(sha, isUuid, s, es, n);
  }

  lemma TypedNow(sha: Bytes -> Bytes, isUuid: string -> bool, s: Session, front: seq<Event>, p: Bytes, keep: bool, h: Challenge)
    requires p != [] && LastHash(s, front, h)
    ensures var t := Step(sha, isUuid, After(sha, isUuid, s, front), LoginFromUi(p, keep));
            t.password == sha(p + h.salt) && t.source == Undefined
  {
    HashByPosition(sha, isUuid, s, front, h);
  }

  /** In every run a typed password is kept as its digest with the salt of then, until it is replaced. */
  lemma {:induction false} TypedOrigin(sha: Bytes -> Bytes, isUuid: string -> bool, s: Session, es: seq<Event>, i: nat,
                                       p: Bytes, keep: bool, h: Challenge)
    requires IsHash(sha) && Typed(sha, isUuid, s, es, i, p, keep) && LastHash(s, es[..i], h)
    ensures After(sha, isUuid, s, es).password == sha(p + h.salt) && After(sha, isUuid, s, es).source == Undefined
  {
    var n := |es| - 1;
    if i == n {
      TypedNow(sha, isUuid, s, es[..i], p, keep, h);
    } else {
      TypedInFront(sha, isUuid, s, es, i, p, keep);
      assert es[..n][..i] == es[..i];
      TypedOrigin(sha, isUuid, s, es[..n], i, p, keep, h);
      PasswordKept(sha, isUuid, After(sha, isUuid, s, es[..n]), es[n]);
    }
  }

  /** And so is the wish to remember it, until the session is initialized again. */
  lemma {:induction false} TypedRemember(sha: Bytes -> Bytes, isUuid: string -> bool, s: Session, es: seq<Event>, i: nat,
                                         p: Bytes, keep: bool)
    requires Typed(sha, isUuid, s, es, i, p, keep) && forall k :: i < k < |es| ==> !es[k].Initialize?
    ensures After(sha, isUuid, s, es).remember == keep
  {
    var n := |es| - 1;
    if i < n {
      TypedInFront(sha, isUuid, s, es, i, p, keep);
      TypedRemember(sha, isUuid, s, es[..n], i, p, keep);
      RememberKept(sha, isUuid, After(sha, isUuid, s, es[..n]), es[n]);
    }
  }

  /** In every run, when the peer accepts a typed password, it is stored if it is to be remembered, and else nothing is. */
  lemma TypedIsStored(sha: Bytes -> Bytes, isUuid: string -> bool, s: Session, es: seq<Event>, i: nat, p: Bytes, keep: bool, h: Challenge)
    requires IsHash(sha) && Typed(sha, isUuid, s, es, i, p, keep) && LastHash(s, es[..i], h)
    requires forall k :: i < k < |es| ==> !es[k].Initialize?
    ensures OnPeerInfo(sha, After(sha, isUuid, s, es)).stored == if keep then sha(p + h.salt) else []
  {
    TypedOrigin(sha, isUuid, s, es, i, p, keep, h);
    TypedRemember(sha, isUuid, s, es, i, p, keep);
  }

  /** An empty text from the user interface means the password in use, or else the stored one. */
  lemma EmptyTextFallsBack(sha: Bytes -> Bytes, isUuid: string -> bool, s: Session, keep: bool)
    ensures Step(sha, isUuid, s, LoginFromUi([], keep)) ==
            if s.password == [] && s.config != [] then s.(password := s.config, source := Undefined) else s
  {
    FirstOfTwo(Candidate(s.password, None), Candidate(s.config, Some(Undefined)));
  }

  /** In every run, after a wrong password none is in use until one is chosen or typed; the tag stays. */
  lemma {:induction false} WrongIsForgotten(sha: Bytes -> Bytes, isUuid: string -> bool, s: Session, es: seq<Event>, i: nat)
    requires i < |es| && es[i] == LoginError(true)
    requires forall k :: i < k < |es| ==> !es[k].HandleHash? && !es[k].LoginFromUi?
    ensures After(sha, isUuid, s, es).password == []
    ensures After(sha, isUuid, s, es).source == After(sha, isUuid, s, es[..i]).source
  {
    if i < |es| - 1 {
      assert es[..|es| - 1][..i] == es[..i];
      WrongIsForgotten(sha, isUuid, s, es[..|es| - 1], i);
    }
  }

  /** In every run, from the first initialization on, the loaded password is the stored one. */
  lemma {:induction false} LoadedIsStored(sha: Bytes -> Bytes, isUuid: string -> bool, s: Session, es: seq<Event>, i: nat)
    requires i < |es| && es[i].Initialize?
    ensures After(sha, isUuid, s, es).config == After(sha, isUuid, s, es).stored
  {
    if i < |es| - 1 {
      LoadedIsStored(sha, isUuid, s, es[..|es| - 1], i);
    }
  }

  /** In every run only the peer's acceptance changes what is stored. */
  lemma OnlyAcceptanceStores(sha: Bytes -> Bytes, isUuid: string -> bool, s: Session, es: seq<Event>)
    requires es != [] && !es[|es| - 1].PeerInfo?
    ensures After(sha, isUuid, s, es).stored == After(sha, isUuid, s, es[..|es| - 1]).stored
  {
  }

  /** The next session with the peer: the stored password is used, or else that of the personal address book. */
  lemma NextSession(sha: Bytes -> Bytes, isUuid: string -> bool, stored: Bytes, hash: Challenge, personal: Bytes)
    requires IsHash(sha)
    ensures After(sha, isUuid, Start(stored), [] + [Initialize(None, None)] + [HandleHash([], hash, personal)])
            == Session(hash, if stored != [] then stored else personal,
                       if stored == [] && personal != [] then PersonalAb(personal) else Undefined,
                       stored != [], stored, stored, None, None)
  {
    var e0, e1 := Initialize(None, None), HandleHash([], hash, personal);
    AfterOne(sha, isUuid, Start(stored), [], e0);
    AfterOne(sha, isUuid, Start(stored), [] + [e0], e1);
    CascadeExactly(sha, isUuid, After(sha, isUuid, Start(stored), [] + [e0]), [], hash, personal);
  }

  /** A typed password that is to be remembered is what the next session uses, whatever its challenge. */
  lemma RememberedIsUsedAgain(sha: Bytes -> Bytes, isUuid: string -> bool, s: Session, es: seq<Event>, i: nat,
                              p: Bytes, keep: bool, h: Challenge, next: Challenge)
    requires IsHash(sha) && Typed(sha, isUuid, s, es, i, p, keep) && LastHash(s, es[..i], h)
    requires forall k :: i < k < |es| ==> !es[k].Initialize?
    ensures var stored := OnPeerInfo(sha, After(sha, isUuid, s, es)).stored;
            After(sha, isUuid, Start(stored), [] + [Initialize(None, None)] + [HandleHash([], next, [])]).password
            == if keep then sha(p + h.salt) else []
  {
    TypedIsStored(sha, isUuid, s, es, i, p, keep, h);
    NextSession(sha, isUuid, OnPeerInfo(sha, After(sha, isUuid, s, es)).stored, next, []);
  }

  /** The first entry of the address book with the id decides. */
  lemma {:induction false} FirstEntryDecides(peers: seq<AbPeer>, id: string, k: nat)
    requires k <= |peers| && forall j :: 0 <= j < k ==> peers[j].id != id
    requires k < |peers| ==> peers[k].id == id
    ensures PersonalPassword(peers, id) == if k < |peers| && peers[k].hash.Some? then peers[k].hash.value else []
  {
    if k > 0 {
      FirstEntryDecides(peers[1..], id, k - 1);
    }
  }

  // ----- two runs that store a shared password

  lemma AfterOne(sha: Bytes -> Bytes, isUuid: string -> bool, s: Session, es: seq<Event>, e: Event)
    ensures After(sha, isUuid, s, es + [e]) == Step(sha, isUuid, After(sha, isUuid, s, es), e)
  {
    assert (es + [e])[..|es|] == es;
  }

  function Login(p: Bytes, hash: Challenge): seq<Event> {
    [] + [Initialize(None, Some(p))] + [HandleHash([], hash, [])] + [PeerInfo]
  }

  /** After a login with a shared password, next to a stored one. */
  lemma AfterLogin(sha: Bytes -> Bytes, isUuid: string -> bool, stored: Bytes, p: Bytes, hash: Challenge)
    requires IsHash(sha) && stored != [] && p != []
    ensures After(sha, isUuid, Start(stored), Login(p, hash))
            == Session(hash, sha(p + hash.salt), SharedAb(p), true, stored, stored, None, None)
  {
    var e0, e1 := Initialize(None, Some(p)), HandleHash([], hash, []);
    AfterOne(sha, isUuid, Start(stored), [], e0);
    AfterOne(sha, isUuid, Start(stored), [] + [e0], e1);
    AfterOne(sha, isUuid, Start(stored), [] + [e0] + [e1], PeerInfo);
    SharedChosen(sha, isUuid, After(sha, isUuid, Start(stored), [] + [e0]), e1);
  }

  /** The peer has changed its salt when the session reconnects. */
  lemma ChangedSalt(sha: Bytes -> Bytes, isUuid: string -> bool, stored: Bytes, p: Bytes, hash: Challenge, fresher: Challenge)
    requires IsHash(sha) && stored != [] && p != [] && sha(p + hash.salt) != sha(p + fresher.salt)
    ensures After(sha, isUuid, Start(stored), Login(p, hash) + [HandleHash([], fresher, [])] + [PeerInfo]).stored
            == sha(p + hash.salt)
  {
    var es, e := Login(p, hash), HandleHash([], fresher, []);
    AfterLogin(sha, isUuid, stored, p, hash);
    AfterOne(sha, isUuid, Start(stored), es, e);
    AfterOne(sha, isUuid, Start(stored), es + [e], PeerInfo);
    PasswordKept(sha, isUuid, After(sha, isUuid, Start(stored), es), e);
  }

  /** With one salt throughout: the session is initialized again, with a switch request. */
  lemma SwitchStoresShared(sha: Bytes -> Bytes, isUuid: string -> bool, stored: Bytes, p: Bytes, hash: Challenge, uuid: string)
    requires IsHash(sha) && stored != [] && p != [] && isUuid(uuid)
    ensures After(sha, isUuid, Start(stored),
                  Login(p, hash) + [Initialize(Some(uuid), None)] + [HandleHash([], hash, [])] + [PeerInfo]).stored
            == sha(p + hash.salt)
  {
    var es, e0, e1 := Login(p, hash), Initialize(Some(uuid), None), HandleHash([], hash, []);
    AfterLogin(sha, isUuid, stored, p, hash);
    AfterOne(sha, isUuid, Start(stored), es, e0);
    AfterOne(sha, isUuid, Start(stored), es + [e0], e1);
    AfterOne(sha, isUuid, Start(stored), es + [e0] + [e1], PeerInfo);
  }
}
