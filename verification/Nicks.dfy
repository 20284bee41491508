/** Nicks (main.go): which nicks clients can have, and when the server's map lists the clients that are
    connected.  Lower-casing outside ASCII is a parameter. */
module Nicks {
  import opened Text

  const MAX_NICK := 30
  const NICK_START: set<char> := {'_', '[', ']', '\\', '^', '{', '}', '|', '`'}

  predicate Letter(c: char) { 'A' <= c <= 'Z' || 'a' <= c <= 'z' }

  predicate NickChar(c: char) { Letter(c) || '0' <= c <= '9' || c == '-' || c in NICK_START }

  predicate IsValidNick(nick: string) {
    && nick != "" && |nick| <= MAX_NICK && (Letter(nick[0]) || nick[0] in NICK_START)
    && forall i :: 1 <= i < |nick| ==> NickChar(nick[i])
  }

  /** The characters of nicks are those from `A` to `}` in a row, and after the first also digits and hyphens. */
  lemma NickRange(nick: string)
    ensures IsValidNick(nick)
       <==> 1 <= |nick| <= 30 && 'A' <= nick[0] <= '}'
            && forall i :: 1 <= i < |nick| ==> 'A' <= nick[i] <= '}' || '0' <= nick[i] <= '9' || nick[i] == '-'
  {
    forall i | 0 <= i < |nick|
      ensures Letter(nick[i]) || nick[i] in NICK_START <==> 'A' <= nick[i] <= '}'
    {
      InARow(nick[i]);
    }
  }

  lemma InARow(c: char)
    ensures Letter(c) || c in NICK_START <==> 'A' <= c <= '}'
  {}

  // ----- strings.ToLower -----

  function LowerChar(other: char -> char, c: char): char {
    if (c as int) >= 0x80 then other(c) else if 'A' <= c <= 'Z' then (c as int + 32) as char else c
  }

  function ToLower(other: char -> char, s: string): (r: string)
    ensures |r| == |s| && forall i :: 0 <= i < |s| ==> r[i] == LowerChar(other, s[i])
  {
    seq(|s|, i requires 0 <= i < |s| => LowerChar(other, s[i]))
  }

  function Folding(other: char -> char): string -> string { s => ToLower(other, s) }

  /** A valid nick has no colon in lower case either. */
  lemma ValidNoColon(other: char -> char, nick: string)
    requires IsValidNick(nick)
    ensures ':' !in Folding(other)(nick)
  {
    forall i | 0 <= i < |nick| ensures ToLower(other, nick)[i] != ':' {
      assert NickChar(nick[i]);
    }
  }

  // ----- Clients and their nicks -----

  datatype NickReply = NoNickGiven | Erroneous | InUse | Taken

  class Client {
    var nick: string
    var registered: bool
    var quit: bool

    constructor ()
      ensures nick == "" && !registered && !quit
    {
      nick, registered, quit := "", false, false;
    }
  }

  /** The server's map from folded nicks to clients.  A client that has quit keeps its nick, and lines of it
      that were read before are still handled. */
  class Registry {
    const other: char -> char
    var clients: map<string, Client>
    /** Every client that ever connected, for specification. */
    ghost var all: set<Client>

    function Key(nick: string): string { Folding(other)(nick) }

    ghost predicate ClientOk(c: Client)
      reads c
    {
      (c.nick == "" || IsValidNick(c.nick)) && (c.registered ==> c.nick != "")
    }

    ghost predicate Valid()
      reads this, all
    {
      && (forall c :: c in all ==> ClientOk(c))
      && (forall k :: k in clients ==> clients[k] in all && clients[k].nick != "" && k == Key(clients[k].nick))
    }

    /** The client is the one found under its nick. */
    ghost predicate Listed(c: Client)
      reads this, c
    {
      c.nick != "" ==> Key(c.nick) in clients && clients[Key(c.nick)] == c
    }

    ghost predicate AllListed()
      reads this, all
    {
      forall c :: c in all && !c.quit ==> Listed(c)
    }

    constructor (other: char -> char)
      ensures Valid() && AllListed() && all == {} && clients == map[] && this.other == other
    {
      this.other := other;
      clients := map[];
      all := {};
    }

    method Connect() returns (c: Client)
      requires Valid()
      modifies `all
      ensures Valid() && fresh(c) && all == old(all) + {c} && c.nick == "" && !c.quit && !c.registered
      ensures old(AllListed()) ==> AllListed()
    {
      c := new Client();
      all := all + {c};
      forall d | d in old(all) ensures ClientOk(d) && (old(Listed(d)) ==> Listed(d)) { assert old(ClientOk(d)); }
    }

    /** While all connected clients are listed, no two of them have nicks of one folding. */
    lemma NicksUnique(c: Client, d: Client)
      requires AllListed() && c in all && d in all && !c.quit && !d.quit && c.nick != "" && d.nick != ""
      ensures Key(c.nick) == Key(d.nick) ==> c == d
    {
      assert Listed(c) && Listed(d);
    }

    /** The client's nick has been taken over by another that is connected. */
    predicate Displaces(c: Client)
      reads this, c, clients.Values
    {
      c.nick != "" && Key(c.nick) in clients && clients[Key(c.nick)] != c && !clients[Key(c.nick)].quit
    }

    /** While all are listed, only one that has quit can displace another. */
    lemma OnlyQuitDisplaces(c: Client)
      requires AllListed() && c in all && Displaces(c)
      ensures c.quit
    {
      assert !c.quit ==> Listed(c);
    }

    /** NICK: the client moves to the nick unless that is no valid one or another client's in any case.  All
        connected clients stay listed if and only if the client does not displace another. */
    method HandleNick(c: Client, param: Option<string>) returns (reply: NickReply)
      requires Valid() && c in all
      modifies `clients, c`nick
      ensures Valid()
      ensures reply == Verdict(old(clients), c, param)
      ensures c.nick == if reply == Taken then Requested(param) else old(c.nick)
      ensures clients == if reply == Taken then Moved(old(clients), old(c.nick), c, c.nick) else old(clients)
      ensures old(AllListed()) ==> (AllListed() <==> !(reply == Taken && old(Displaces(c))))
    {
      if param == None {
        return NoNickGiven;
      }
      var nick := param.value;
      if |nick| > MAX_NICK { nick := nick[..MAX_NICK]; }
      if !IsValidNick(nick) {
        return Erroneous;
      }
      if Key(nick) in clients && clients[Key(nick)] != c {
        return InUse;
      }
      if AllListed() { MovedListsIff(c, nick); }
      ghost var othersListed := OthersListed(Moved(clients, c.nick, c, nick), c);
      Take(c, nick);
      assert OthersListed(clients, c) == othersListed;
      ListedSplit(c);
      return Taken;
    }

    /** The nick of some other client in the map, in any case. */
    ghost predicate AnothersNick(c: Client, nick: string)
      reads this, clients.Values
    {
      exists k :: k in clients && clients[k] != c && Folding(other)(clients[k].nick) == Folding(other)(nick)
    }

    /** What NICK is answered. */
    lemma VerdictIff(c: Client, param: Option<string>)
      requires Valid()
      ensures var v := Verdict(clients, c, param);
        && (v == NoNickGiven <==> param == None)
        && (param.Some? ==>
              var nick := if |param.value| > 30 then param.value[..30] else param.value;
              && (v == Erroneous <==> !IsValidNick(nick)) && (v == InUse <==> IsValidNick(nick) && AnothersNick(c, nick))
              && (v == Taken <==> IsValidNick(nick) && !AnothersNick(c, nick)) && Requested(param) == nick)
    {
      var nick := Requested(param);
      if Key(nick) in clients && clients[Key(nick)] != c { assert AnothersNick(c, nick); }
      if AnothersNick(c, nick) {
        var k :| k in clients && clients[k] != c && Folding(other)(clients[k].nick) == Folding(other)(nick);
        assert k == Key(clients[k].nick);
      }
    }

    ghost predicate ListedIn(m: map<string, Client>, c: Client)
      reads c
    {
      c.nick != "" ==> Key(c.nick) in m && m[Key(c.nick)] == c
    }

    ghost predicate OthersListed(m: map<string, Client>, c: Client)
      reads this, all
    {
      forall d :: d in all && d != c && !d.quit ==> ListedIn(m, d)
    }

    lemma ListedSplit(c: Client)
      requires c in all && Listed(c)
      ensures AllListed() <==> OthersListed(clients, c)
    {
      assert forall d :: Listed(d) <==> ListedIn(clients, d);
    }

    /** The map after a client changes its nick. */
    function Moved(m: map<string, Client>, oldNick: string, c: Client, nick: string): map<string, Client> {
      (if oldNick != "" then m - {Key(oldNick)} else m)[Key(nick) := c]
    }

    function Requested(param: Option<string>): string {
      if param == None then "" else if |param.value| > MAX_NICK then param.value[..MAX_NICK] else param.value
    }

    function Verdict(clients: map<string, Client>, c: Client, param: Option<string>): NickReply {
      var nick := Requested(param);
      if param == None then NoNickGiven
      else if !IsValidNick(nick) then Erroneous
      else if Key(nick) in clients && clients[Key(nick)] != c then InUse
      else Taken
    }

    method Take(c: Client, nick: string)
      requires Valid() && c in all && IsValidNick(nick)
      requires Key(nick) in clients ==> clients[Key(nick)] == c
      modifies `clients, c`nick
      ensures Valid() && c.nick == nick && clients == Moved(old(clients), old(c.nick), c, nick)
    {
      assert ClientOk(c);
      var oldNick := c.nick;
      c.nick := nick;
      if oldNick != "" { clients := clients - {Key(oldNick)}; }
      clients := clients[Key(nick) := c];
      forall d | d in all && d != c ensures ClientOk(d) { assert old(ClientOk(d)); }
    }

    /** In a map in which a client has moved, the others are listed if and only if it displaced none. */
    lemma MovedListsIff(c: Client, nick: string)
      requires Valid() && AllListed() && c in all && (Key(nick) in clients ==> clients[Key(nick)] == c)
      ensures OthersListed(Moved(clients, c.nick, c, nick), c) <==> !Displaces(c)
    {
      var m := Moved(clients, c.nick, c, nick);
      if Displaces(c) {
        var d := clients[Key(c.nick)];
        assert d in all && Key(d.nick) == Key(c.nick) && Key(d.nick) !in m;
        assert !ListedIn(m, d);
      } else {
        forall d | d in all && d != c && !d.quit ensures ListedIn(m, d) { assert Listed(d); }
      }
    }

    /** tryRegister; `ready` says that the user name is given and capability negotiation is over. */
    method TryRegister(c: Client, ready: bool)
      requires Valid() && c in all
      modifies c`registered
      ensures Valid() && c.registered == (old(c.registered) || (ready && c.nick != ""))
      ensures old(AllListed()) ==> AllListed()
    {
      assert ClientOk(c);
      if !c.registered && ready && c.nick != "" {
        c.registered := true;
        forall d | d in all && d != c ensures ClientOk(d) { assert old(ClientOk(d)); }
        forall d | d in all && old(Listed(d)) ensures Listed(d) {}
      }
    }

    method RemoveClient(c: Client)
      requires Valid() && c in all
      modifies `clients, c`quit
      ensures Valid() && c.quit
      ensures clients == if old(c.quit) then old(clients) else old(clients) - {Key(c.nick)}
      ensures old(AllListed()) ==> AllListed()
    {
      if c.quit { return; }
      assert ClientOk(c);
      assert AllListed() ==> Listed(c);
      c.quit := true;
      clients := clients - {Key(c.nick)};
      forall d | d in all && d != c ensures ClientOk(d) { assert old(ClientOk(d)); }
      if old(AllListed()) {
        forall d | d in all && !d.quit ensures Listed(d) { assert old(Listed(d)); }
      }
    }
  }

  /** Only capital letters of ASCII are lowered, each to its own small one. */
  lemma LowerCases(other: char -> char, s: string)
    requires forall i :: 0 <= i < |s| ==> s[i] as int < 0x80
    ensures Folding(other)("ABCDEFGHIJKLMNOPQRSTUVWXYZ") == "abcdefghijklmnopqrstuvwxyz"
    ensures forall i :: 0 <= i < |s| && !('A' <= s[i] <= 'Z') ==> Folding(other)(s)[i] == s[i]
  {}

  lemma LowerCaseStays(other: char -> char)
    ensures Folding(other)("bob") == "bob" && Folding(other)("zed") == "zed"
  {}

  /** A client quits, and another takes its nick. */
  method Succession(other: char -> char) returns (r: Registry, c: Client, d: Client)
    ensures fresh(r) && fresh(c) && fresh(d)
    ensures r.Valid() && r.AllListed() && r.other == other && r.all == {c, d} && c != d
    ensures c.quit && !d.quit && c.nick == d.nick == "bob" && r.clients == map["bob" := d]
  {
    LowerCaseStays(other);
    r := new Registry(other);
    c := r.Connect();
    var first := r.HandleNick(c, Some("bob"));
    r.RemoveClient(c);
    d := r.Connect();
    var second := r.HandleNick(d, Some("bob"));
  }

  /** The client that has quit had a NICK buffered behind its QUIT: it displaces the one with its nick. */
  method Displacement(other: char -> char) returns (r: Registry, c: Client, d: Client)
    ensures fresh(r) && fresh(c) && fresh(d)
    ensures r.Valid() && !r.AllListed() && r.other == other && r.all == {c, d} && c != d
    ensures c.quit && !d.quit && c.nick == "zed" && d.nick == "bob" && r.clients == map["zed" := c]
  {
    LowerCaseStays(other);
    r, c, d := Succession(other);
    assert r.Displaces(c);
    var late := r.HandleNick(c, Some("zed"));
    assert r.clients == map["zed" := c];
  }

  /** So two connected clients come to have one nick, and the one that `c` moved to stays taken. */
  method LateNick(other: char -> char) returns (r: Registry, c: Client, d: Client, e: Client)
    ensures r.Valid() && d in r.all && e in r.all && d != e && !d.quit && !e.quit && d.nick == e.nick == "bob"
    ensures c.quit && r.Key("zed") in r.clients && r.clients[r.Key("zed")] == c
    ensures r.Verdict(r.clients, e, Some("zed")) == InUse
  {
    LowerCaseStays(other);
    r, c, d := Displacement(other);
    e := r.Connect();
    var taken := r.HandleNick(e, Some("bob"));
    r.RemoveClient(c);
  }
}
