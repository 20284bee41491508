/** The table of users on other servers (federation.go).  Letter folding, the lookup of local clients
    and the fields taken from a message are parameters. */
module RemoteUsers {
  import opened Text
  import Lamport
  import Urns

  datatype User = User(urn: string, nick: string, ident: string, host: string, realname: string, server: string,
                       seq_: int, origin: string, identity: string, did: string)

  /** The user object of a UserOnline message or of a full sync. */
  datatype Info = Info(urn: string, nick: string, ident: string, host: string, realname: string,
                       identity: string, did: string)

  datatype NewIdentity = Cleared | Set(identity: string, did: Option<string>) | Ignored

  type Table = map<string, User>

  /** The fourth of a name's parts. */
  function Home(urn: string): Option<string> {
    var parts := Split(urn, ':');
    if |parts| >= 4 then Some(parts[3]) else None
  }

  /** isUserOwnedByOrigin. */
  predicate Owned(urn: string, origin: string, fold: string -> string) {
    Home(urn).Some? && Home(origin).Some? && fold(Home(urn).value) == fold(Home(origin).value)
  }

  function MakeUser(i: Info, seq_: int, origin: string): User {
    User(i.urn, i.nick, i.ident, i.host, i.realname, if Home(i.urn).Some? then Home(i.urn).value else "",
         seq_, origin, i.identity, i.did)
  }

  function NewDid(old_: string, id: NewIdentity): string {
    match id
    case Cleared => ""
    case Ignored => old_
    case Set(_, d) => if d.Some? then d.value else old_
  }

  function NewText(old_: string, id: NewIdentity): string {
    match id
    case Cleared => ""
    case Ignored => old_
    case Set(text, _) => text
  }

  // ----- What each message does to the table -----

  datatype Change =
    | Online(info: Info, seq_: int, origin: string, loses: bool)
    | Offline(urn: string)
    | Rename(urn: string, newNick: string, loses: bool)
    | Identify(urn: string, origin: string, id: NewIdentity)
    | FullSync(peer: string, infos: seq<Info>)
    | Disconnect(peer: string)

  function Renamed(u: User, newNick: string): User {
    u.(nick := newNick, urn := Urns.UserURN(u.server, newNick))
  }

  function Sync(t: Table, peer: string, infos: seq<Info>, fold: string -> string): Table {
    if infos == [] then t
    else
      var before, i := Sync(t, peer, infos[..|infos| - 1], fold), infos[|infos| - 1];
      if Owned(i.urn, Urns.ServerURN(peer), fold) then before[i.urn := MakeUser(i, 0, "")] else before
  }

  function Apply(t: Table, c: Change, fold: string -> string): Table {
    match c
    case Online(i, n, origin, loses) => if Owned(i.urn, origin, fold) && !loses then t[i.urn := MakeUser(i, n, origin)] else t
    case Offline(urn) => t - {urn}
    case Rename(urn, newNick, loses) =>
      if loses || urn !in t then t
      else var u := Renamed(t[urn], newNick); (t - {urn})[u.urn := u]
    case Identify(urn, origin, id) =>
      if !Owned(urn, origin, fold) || urn !in t then t
      else var u := t[urn]; t[urn := u.(identity := NewText(u.identity, id), did := NewDid(u.did, id))]
    case FullSync(peer, infos) => Sync(t, peer, infos, fold)
    case Disconnect(peer) => map k | k in t && t[k].server != peer :: t[k]
  }

  /** Every key is its record's name and its fourth part the record's server, which has no colon; and
      a record announced by a server was announced by its home. */
  ghost predicate WellHomed(t: Table, fold: string -> string) {
    forall k :: k in t ==>
      && t[k].urn == k && Home(k) == Some(t[k].server) && ':' !in t[k].server
      && (t[k].origin == "" || Owned(k, t[k].origin, fold))
  }

  lemma Colons(a: string, b: string, c: string, host: string, rest: string)
    requires ':' !in a && ':' !in b && ':' !in c && ':' !in host
    ensures Split(a + ([':'] + (b + ([':'] + (c + ([':'] + (host + ([':'] + rest))))))), ':')
         == [a] + ([b] + ([c] + ([host] + Split(rest, ':'))))
  {
    var s3 := host + ([':'] + rest);
    var s2 := c + ([':'] + s3);
    var s1 := b + ([':'] + s2);
    SplitCons(host, rest, ':');
    SplitCons(c, s3, ':');
    SplitCons(b, s2, ':');
    SplitCons(a, s1, ':');
  }

  lemma UserURNShape(host: string, nick: string)
    ensures Urns.UserURN(host, nick)
         == "urn" + ([':'] + ("irc" + ([':'] + ("user" + ([':'] + (host + ([':'] + nick)))))))
  {}

  lemma ServerURNShape(host: string)
    ensures Urns.ServerURN(host) == "urn" + ([':'] + ("irc" + ([':'] + ("server" + ([':'] + host)))))
  {}

  lemma FourthOf(a: string, b: string, c: string, d: string, rest: seq<string>)
    ensures var parts := [a] + ([b] + ([c] + ([d] + rest))); |parts| >= 4 && parts[3] == d
  {}

  /** A host name up to its first colon. */
  function HostPart(host: string): (part: string)
    ensures ':' !in part && (part == host <==> ':' !in host)
  {
    host[..Find(host, ':')]
  }

  lemma ThreeColons(a: string, b: string, c: string, host: string)
    requires ':' !in a && ':' !in b && ':' !in c
    ensures Split(a + ([':'] + (b + ([':'] + (c + ([':'] + host))))), ':') == [a] + ([b] + ([c] + Split(host, ':')))
  {
    var s2 := c + ([':'] + host);
    var s1 := b + ([':'] + s2);
    SplitCons(c, host, ':');
    SplitCons(b, s2, ':');
    SplitCons(a, s1, ':');
  }

  lemma FirstPart(host: string) returns (rest: seq<string>)
    ensures Split(host, ':') == [HostPart(host)] + rest
  {
    var i := Find(host, ':');
    rest := if i == |host| then [] else Split(host[i + 1..], ':');
  }

  /** What is found of the host in a user's name the server makes is the part before its first colon: all of it
      unless it has one. */
  lemma HomeOfUserURN(host: string, nick: string)
    ensures Home(Urns.UserURN(host, nick)) == Some(HostPart(host))
    ensures Home(Urns.UserURN(host, nick)) == Some(host) <==> ':' !in host
  {
    UserURNShape(host, nick);
    var rest := host + ([':'] + nick);
    ThreeColons("urn", "irc", "user", rest);
    var after := FirstPart(rest);
    FourthOf("urn", "irc", "user", HostPart(rest), after);
    PartOfBoth(host, nick);
  }

  lemma PartOfBoth(host: string, nick: string)
    ensures HostPart(host + ([':'] + nick)) == HostPart(host)
  {
    var s, i := host + ([':'] + nick), Find(host, ':');
    assert s[..i] == host[..i];
    assert s[i] == ':';
    FindUnique(s, ':', i);
  }

  /** What is found of the host in a server's name is the part before its first colon. */
  lemma HomeOfServerURN(host: string)
    ensures Home(Urns.ServerURN(host)) == Some(HostPart(host))
  {
    ServerURNShape(host);
    ThreeColons("urn", "irc", "server", host);
    var rest := FirstPart(host);
    FourthOf("urn", "irc", "server", HostPart(host), rest);
  }

  lemma {:induction false} SyncKeeps(t: Table, peer: string, infos: seq<Info>, fold: string -> string)
    requires WellHomed(t, fold)
    ensures WellHomed(Sync(t, peer, infos, fold), fold)
  {
    if infos != [] { SyncKeeps(t, peer, infos[..|infos| - 1], fold); }
  }

  lemma RenameKeeps(t: Table, urn: string, newNick: string, loses: bool, fold: string -> string)
    requires WellHomed(t, fold)
    ensures WellHomed(Apply(t, Rename(urn, newNick, loses), fold), fold)
  {
    if !loses && urn in t { HomeOfUserURN(t[urn].server, newNick); }
  }

  /** Every message keeps the table well homed, whatever the outcome of nick collisions. */
  lemma ApplyKeeps(t: Table, c: Change, fold: string -> string)
    requires WellHomed(t, fold)
    ensures WellHomed(Apply(t, c, fold), fold)
  {
    match c
    case Rename(urn, newNick, loses) => RenameKeeps(t, urn, newNick, loses, fold);
    case FullSync(peer, infos) => SyncKeeps(t, peer, infos, fold);
    case _ =>
  }

  function After(changes: seq<Change>, fold: string -> string): Table {
    if changes == [] then map[] else Apply(After(changes[..|changes| - 1], fold), changes[|changes| - 1], fold)
  }

  /** After any messages in any order the table is well homed. */
  lemma {:induction false} AlwaysWellHomed(changes: seq<Change>, fold: string -> string)
    ensures WellHomed(After(changes, fold), fold)
  {
    if changes != [] {
      AlwaysWellHomed(changes[..|changes| - 1], fold);
      ApplyKeeps(After(changes[..|changes| - 1], fold), changes[|changes| - 1], fold);
    }
  }

  /** In any reachable table a disconnect removes exactly the keys homed on the peer. */
  lemma DisconnectExact(changes: seq<Change>, peer: string, fold: string -> string)
    ensures var t, u := After(changes, fold), Apply(After(changes, fold), Disconnect(peer), fold);
      forall k :: (k in u <==> k in t && Home(k) != Some(peer)) && (k in u ==> u[k] == t[k])
  {
    AlwaysWellHomed(changes, fold);
  }

  /** The comparison at disconnect is exact and of the whole name, while the one at announcement folds letters
      and is of the part before a colon: no user the peer could announce remains if and only if all those in
      the table spell the peer's name its way. */
  lemma NoneLeftIff(changes: seq<Change>, peer: string, fold: string -> string)
    ensures var t := After(changes, fold); var u := Apply(t, Disconnect(peer), fold);
      (forall k :: k in u ==> !Owned(k, Urns.ServerURN(peer), fold))
      <==> forall k :: k in t && fold(t[k].server) == fold(HostPart(peer)) ==> t[k].server == peer
  {
    AlwaysWellHomed(changes, fold);
    HomeOfServerURN(peer);
    var t := After(changes, fold);
    forall k | k in t ensures Owned(k, Urns.ServerURN(peer), fold) <==> fold(t[k].server) == fold(HostPart(peer)) {}
  }

  /** The disconnect of a peer whose name has a colon removes nobody. */
  lemma ColonPeerKept(changes: seq<Change>, peer: string, fold: string -> string)
    requires ':' in peer
    ensures Apply(After(changes, fold), Disconnect(peer), fold) == After(changes, fold)
  {
    AlwaysWellHomed(changes, fold);
  }

  /** A user announced under another spelling of the peer's name, or under the part before its colon, stays in
      the table. */
  lemma OtherSpellingStays(peer: string, other: string, i: Info, n: int, fold: string -> string)
    requires ':' !in other && other != peer && fold(other) == fold(HostPart(peer))
    requires i.urn == Urns.UserURN(other, i.nick)
    ensures var changes := [Online(i, n, Urns.ServerURN(peer), false), Disconnect(peer)];
      i.urn in After(changes, fold) && Owned(i.urn, Urns.ServerURN(peer), fold)
  {
    var online := Online(i, n, Urns.ServerURN(peer), false);
    var changes := [online, Disconnect(peer)];
    HomeOfUserURN(other, i.nick);
    HomeOfServerURN(peer);
    assert changes[..1] == [online] && [online][..0] == [];
    assert After([online], fold) == Apply(map[], online, fold);
  }

  // ----- What a message does to the table, field by field -----

  /** A user made by the server is the peer's if and only if the hosts agree in all cases, up to their colons. */
  lemma OwnedIff(host: string, nick: string, peer: string, fold: string -> string)
    ensures Owned(Urns.UserURN(host, nick), Urns.ServerURN(peer), fold) <==> fold(HostPart(host)) == fold(HostPart(peer))
  {
    HomeOfUserURN(host, nick);
    HomeOfServerURN(peer);
  }

  predicate RecordOf(u: User, i: Info, n: int, origin: string) {
    && u.urn == i.urn && u.nick == i.nick && u.ident == i.ident && u.host == i.host && u.realname == i.realname
    && u.identity == i.identity && u.did == i.did && u.seq_ == n && u.origin == origin && Home(i.urn) == Some(u.server)
  }

  /** An owned user that does not lose is stored with what was announced, in place of a record of that name; else
      nothing changes. */
  lemma OnlineMeans(t: Table, i: Info, n: int, origin: string, loses: bool, fold: string -> string)
    ensures var t' := Apply(t, Online(i, n, origin, loses), fold);
      && (Owned(i.urn, origin, fold) && !loses ==> i.urn in t' && RecordOf(t'[i.urn], i, n, origin))
      && (!Owned(i.urn, origin, fold) || loses ==> t' == t)
      && forall k :: k != i.urn ==> (k in t' <==> k in t) && (k in t ==> t'[k] == t[k])
  {}

  /** A user that leaves takes its own record along, whoever says so. */
  lemma OfflineMeans(t: Table, urn: string, fold: string -> string)
    ensures var t' := Apply(t, Offline(urn), fold);
      forall k :: (k in t' <==> k in t && k != urn) && (k in t' ==> t'[k] == t[k])
  {}

  /** A record moves to the name its server and the new nick make, with no other field changed. */
  lemma RenameMeans(t: Table, urn: string, newNick: string, loses: bool, fold: string -> string)
    ensures var t' := Apply(t, Rename(urn, newNick, loses), fold);
      && (loses || urn !in t ==> t' == t)
      && (!loses && urn in t ==>
            var u, name := t[urn], Urns.USER_PREFIX + t[urn].server + ":" + newNick;
            && name in t' && t'[name] == u.(nick := newNick, urn := name) && (urn in t' ==> urn == name)
            && forall k :: k != urn && k != name ==> (k in t' <==> k in t) && (k in t ==> t'[k] == t[k]))
  {}

  /** Of an owned, known user the identity changes, and the DID when one is given or the identity is cleared. */
  lemma IdentifyMeans(t: Table, urn: string, origin: string, id: NewIdentity, fold: string -> string)
    ensures var t' := Apply(t, Identify(urn, origin, id), fold);
      && t'.Keys == t.Keys && (forall k :: k in t && k != urn ==> t'[k] == t[k])
      && (!Owned(urn, origin, fold) || id.Ignored? ==> t' == t)
      && (Owned(urn, origin, fold) && urn in t && id.Cleared? ==> t'[urn] == t[urn].(identity := "", did := ""))
      && (Owned(urn, origin, fold) && urn in t && id.Set? && id.did == None ==> t'[urn] == t[urn].(identity := id.identity))
      && (Owned(urn, origin, fold) && urn in t && id.Set? && id.did.Some? ==>
            t'[urn] == t[urn].(identity := id.identity, did := id.did.value))
  {}

  /** After a full sync each owned user of the peer has the record it was last listed with, without number and
      origin. */
  lemma {:induction false} SyncMeans(t: Table, peer: string, infos: seq<Info>, fold: string -> string, k: string, j: nat)
    requires Owned(k, Urns.ServerURN(peer), fold) && LastListed(infos, k, j)
    ensures var t' := Sync(t, peer, infos, fold); k in t' && RecordOf(t'[k], infos[j], 0, "")
  {
    if j < |infos| - 1 {
      var init := infos[..|infos| - 1];
      assert forall m :: 0 <= m < |init| ==> init[m] == infos[m];
      SyncMeans(t, peer, init, fold, k, j);
    }
  }

  /** Users of others, and those not listed, are as before. */
  lemma {:induction false} SyncKeepsOthers(t: Table, peer: string, infos: seq<Info>, fold: string -> string, k: string)
    requires !Owned(k, Urns.ServerURN(peer), fold) || forall j :: 0 <= j < |infos| ==> infos[j].urn != k
    ensures var t' := Sync(t, peer, infos, fold); (k in t' <==> k in t) && (k in t ==> t'[k] == t[k])
  {
    if infos != [] { SyncKeepsOthers(t, peer, infos[..|infos| - 1], fold, k); }
  }

  predicate LastListed(infos: seq<Info>, k: string, j: nat) {
    j < |infos| && infos[j].urn == k && forall m :: j < m < |infos| ==> infos[m].urn != k
  }

  // ----- Nick collisions -----

  predicate HoldsNick(u: User, nick: string, fold: string -> string) { fold(u.nick) == fold(nick) }

  predicate Beats(u: User, n: int, origin: string) { Lamport.Compare(u.seq_, u.origin, n, origin) < 0 }

  /** What may come out for a newcomer: a local holder of the nick wins; without any holder the newcomer
      does; otherwise some holder decides by the conflict order. */
  predicate Outcome(t: Table, nick: string, n: int, origin: string, local: bool, fold: string -> string, loses: bool) {
    if local then loses
    else if loses then exists k :: k in t && HoldsNick(t[k], nick, fold) && Beats(t[k], n, origin)
    else
      || (forall k :: k in t ==> !HoldsNick(t[k], nick, fold))
      || exists k :: k in t && HoldsNick(t[k], nick, fold) && !Beats(t[k], n, origin)
  }

  /** Some user holds the nick and comes before the newcomer: it has the smaller number, or the same and the origin
      that is smaller at the first difference. */
  ghost predicate EarlierHolder(t: Table, nick: string, n: int, origin: string, fold: string -> string) {
    exists k :: k in t && fold(t[k].nick) == fold(nick)
      && (t[k].seq_ < n || (t[k].seq_ == n && Lamport.Before(t[k].origin, origin)))
  }

  lemma BeatsIff(u: User, n: int, origin: string)
    ensures Beats(u, n, origin) <==> u.seq_ < n || (u.seq_ == n && Lamport.Before(u.origin, origin))
  {
    Lamport.CompareIff(u.seq_, u.origin, n, origin);
  }

  lemma EarlierIff(t: Table, nick: string, n: int, origin: string, fold: string -> string)
    ensures EarlierHolder(t, nick, n, origin, fold)
       <==> exists k :: k in t && HoldsNick(t[k], nick, fold) && Beats(t[k], n, origin)
  {
    forall k | k in t
      ensures Beats(t[k], n, origin) <==> t[k].seq_ < n || (t[k].seq_ == n && Lamport.Before(t[k].origin, origin))
    {
      BeatsIff(t[k], n, origin);
    }
  }

  /** While at most one user holds the nick the outcome is determined: the newcomer loses to a local client
      and to a holder that comes before it. */
  lemma OutcomeDetermined(t: Table, nick: string, n: int, origin: string, local: bool, fold: string -> string, loses: bool)
    requires Outcome(t, nick, n, origin, local, fold, loses)
    requires forall j, k :: j in t && k in t && HoldsNick(t[j], nick, fold) && HoldsNick(t[k], nick, fold) ==> j == k
    ensures loses <==> local || EarlierHolder(t, nick, n, origin, fold)
  {
    EarlierIff(t, nick, n, origin, fold);
  }

  // ----- The table itself -----

  class RemoteUser {
    var urn: string
    var nick: string
    var ident: string
    var host: string
    var realname: string
    var server: string
    var seq_: int
    var origin: string
    var identity: string
    var did: string

    function Value(): User
      reads this
    {
      User(urn, nick, ident, host, realname, server, seq_, origin, identity, did)
    }

    constructor (u: User)
      ensures Value() == u
    {
      urn, nick, ident, host, realname := u.urn, u.nick, u.ident, u.host, u.realname;
      server, seq_, origin, identity, did := u.server, u.seq_, u.origin, u.identity, u.did;
    }

    method Rename(newNick: string)
      modifies this
      ensures Value() == Renamed(old(Value()), newNick)
    {
      nick := newNick;
      urn := Urns.UserURN(server, newNick);
    }

    method Identify(id: NewIdentity)
      modifies this
      ensures var u := old(Value()); Value() == u.(identity := NewText(u.identity, id), did := NewDid(u.did, id))
    {
      match id
      case Cleared =>
        identity := "";
        did := "";
      case Set(text, d) =>
        if d.Some? { did := d.value; }
        identity := text;
      case Ignored =>
    }
  }

  class FederationUsers {
    var remoteUsers: map<string, RemoteUser>

    ghost function Contents(): Table
      reads this, remoteUsers.Values
    {
      map k | k in remoteUsers :: remoteUsers[k].Value()
    }

    /** Distinct keys hold distinct records. */
    ghost predicate Unshared()
      reads this
    {
      forall j, k :: j in remoteUsers && k in remoteUsers && remoteUsers[j] == remoteUsers[k] ==> j == k
    }

    constructor ()
      ensures Contents() == map[] && Unshared()
    {
      remoteUsers := map[];
    }

    /** Whether a newcomer loses its nick.  The first user with that nick met in the map decides, so when
        several have it the answer depends on the order of the map. */
    method CheckNickCollision(nick: string, n: int, origin: string, local: bool, fold: string -> string)
      returns (loses: bool)
      ensures Outcome(Contents(), nick, n, origin, local, fold, loses)
    {
      if local { return true; }
      var left := remoteUsers.Keys;
      while left != {}
        invariant left <= remoteUsers.Keys
        invariant forall k :: k in remoteUsers && k !in left ==> fold(remoteUsers[k].nick) != fold(nick)
        decreases left
      {
        var k :| k in left;
        var ru := remoteUsers[k];
        if fold(ru.nick) == fold(nick) {
          assert Contents()[k] == ru.Value();
          return Lamport.Compare(ru.seq_, ru.origin, n, origin) < 0;
        }
        left := left - {k};
      }
      return false;
    }

    method Detach(urn: string) returns (ru: RemoteUser)
      requires Unshared() && urn in remoteUsers
      modifies this
      ensures Unshared() && Contents() == old(Contents()) - {urn}
      ensures ru == old(remoteUsers[urn]) && ru !in remoteUsers.Values
    {
      ru := remoteUsers[urn];
      remoteUsers := remoteUsers - {urn};
    }

    method Attach(ru: RemoteUser)
      requires Unshared() && ru !in remoteUsers.Values
      modifies this
      ensures Unshared() && Contents() == old(Contents())[ru.urn := ru.Value()]
      ensures ru.urn in remoteUsers && remoteUsers[ru.urn] == ru
    {
      assert forall k :: k in remoteUsers ==> remoteUsers[k] in remoteUsers.Values;
      remoteUsers := remoteUsers[ru.urn := ru];
    }

    /** A new record under the user's name. */
    method Store(i: Info, n: int, origin: string)
      requires Unshared()
      modifies this
      ensures Unshared() && Contents() == old(Contents())[i.urn := MakeUser(i, n, origin)]
    {
      var ru := new RemoteUser(MakeUser(i, n, origin));
      Attach(ru);
    }

    /** The record of a user moves to its new name. */
    method Move(urn: string, newNick: string)
      requires Unshared() && urn in remoteUsers
      modifies this, remoteUsers[urn]
      ensures var u := Renamed(old(Contents())[urn], newNick);
        Unshared() && Contents() == (old(Contents()) - {urn})[u.urn := u]
      ensures var ru := old(remoteUsers[urn]); ru.urn in remoteUsers && remoteUsers[ru.urn] == ru
    {
      var ru := Detach(urn);
      ru.Rename(newNick);
      Attach(ru);
    }

    method HandleUserOnline(i: Info, n: int, origin: string, local: bool, fold: string -> string)
      returns (ghost loses: bool)
      requires Unshared()
      modifies this
      ensures Unshared() && Contents() == Apply(old(Contents()), Online(i, n, origin, loses), fold)
      ensures Owned(i.urn, origin, fold) ==> Outcome(old(Contents()), i.nick, n, origin, local, fold, loses)
    {
      loses := true;
      if !Owned(i.urn, origin, fold) {
        return;
      }
      var collides := CheckNickCollision(i.nick, n, origin, local, fold);
      loses := collides;
      if !collides {
        Store(i, n, origin);
      }
    }

    method HandleUserOffline(urn: string)
      requires Unshared()
      modifies this
      ensures Unshared() && Contents() == Apply(old(Contents()), Offline(urn), s => s)
    {
      remoteUsers := remoteUsers - {urn};
    }

    /** A renamed user keeps its record, which channels share. */
    method HandleNickChange(urn: string, newNick: string, n: int, origin: string, local: bool, fold: string -> string)
      returns (ghost loses: bool)
      requires Unshared()
      modifies this, if urn in remoteUsers then {remoteUsers[urn]} else {}
      ensures Unshared() && Contents() == Apply(old(Contents()), Rename(urn, newNick, loses), fold)
      ensures !loses && urn in old(remoteUsers) ==>
        var ru := old(remoteUsers[urn]); ru.urn in remoteUsers && remoteUsers[ru.urn] == ru
      ensures Outcome(old(Contents()), newNick, n, origin, local, fold, loses)
    {
      var collides := CheckNickCollision(newNick, n, origin, local, fold);
      loses := collides;
      if !collides && urn in remoteUsers {
        Move(urn, newNick);
      }
    }

    method HandleIdentityUpdate(urn: string, origin: string, id: NewIdentity, fold: string -> string)
      requires Unshared()
      modifies if urn in remoteUsers then {remoteUsers[urn]} else {}
      ensures Unshared() && Contents() == Apply(old(Contents()), Identify(urn, origin, id), fold)
    {
      if !Owned(urn, origin, fold) || urn !in remoteUsers { return; }
      var ru := remoteUsers[urn];
      assert Contents()[urn] == ru.Value();
      ru.Identify(id);
      assert forall k :: k in remoteUsers && k != urn ==> remoteUsers[k] != remoteUsers[urn];
    }

    method ProcessFullSyncUsers(peer: string, infos: seq<Info>, fold: string -> string)
      requires Unshared()
      modifies this
      ensures Unshared() && Contents() == Apply(old(Contents()), FullSync(peer, infos), fold)
    {
      for n := 0 to |infos|
        invariant Unshared() && Contents() == Sync(old(Contents()), peer, infos[..n], fold)
      {
        var i := infos[n];
        assert infos[..n + 1][..n] == infos[..n];
        if Owned(i.urn, Urns.ServerURN(peer), fold) {
          Store(i, 0, "");
        }
      }
      assert infos[..|infos|] == infos;
    }

    method RemoveUsersFromServer(hostname: string)
      requires Unshared()
      modifies this
      ensures Unshared() && Contents() == Apply(old(Contents()), Disconnect(hostname), s => s)
    {
      var toRemove := KeysFrom(hostname);
      RemoveAll(toRemove);
    }

    /** The first loop: the keys to be removed. */
    method KeysFrom(hostname: string) returns (toRemove: seq<string>)
      ensures forall k :: k in toRemove <==> k in remoteUsers && remoteUsers[k].server == hostname
    {
      toRemove := [];
      var left := remoteUsers.Keys;
      while left != {}
        invariant left <= remoteUsers.Keys
        invariant forall k :: k in toRemove <==> k in remoteUsers && k !in left && remoteUsers[k].server == hostname
        decreases left
      {
        var k :| k in left;
        if remoteUsers[k].server == hostname { toRemove := toRemove + [k]; }
        left := left - {k};
      }
    }

    /** The second loop. */
    method RemoveAll(toRemove: seq<string>)
      modifies `remoteUsers
      ensures remoteUsers == map k | k in old(remoteUsers) && k !in toRemove :: old(remoteUsers[k])
    {
      for n := 0 to |toRemove|
        invariant remoteUsers == (map k | k in old(remoteUsers) && k !in toRemove[..n] :: old(remoteUsers[k]))
      {
        assert toRemove[..n + 1] == toRemove[..n] + [toRemove[n]];
        remoteUsers := remoteUsers - {toRemove[n]};
      }
      assert toRemove[..|toRemove|] == toRemove;
    }
  }
}
