/** Resource names (s2s.go): how servers, users and events are named, and when names are unique. */
module Urns {
  import opened Text
  import Decimal

  const SERVER_PREFIX := "urn:irc:server:"
  const EVENT_PREFIX := "urn:irc:event:"
  const USER_PREFIX := "urn:irc:user:"

  function ServerURN(host: string): string { SERVER_PREFIX + host }

  function UserURN(host: string, nick: string): string { USER_PREFIX + host + ":" + nick }

  function ExtractHostname(urn: string): string {
    if |urn| > |SERVER_PREFIX| then urn[|SERVER_PREFIX|..] else urn
  }

  function EventID(serverURN: string, n: nat): string {
    EVENT_PREFIX + ExtractHostname(serverURN) + ":" + Decimal.Print(n)
  }

  /** The host comes back from a server's name, unless it is empty. */
  lemma HostnameOfServer(host: string)
    ensures ExtractHostname(ServerURN(host)) == host <==> host != ""
  {
    assert ServerURN(host)[|SERVER_PREFIX|..] == host;
  }

  lemma LastColonUnique(a: string, m: string, b: string, n: string)
    requires ':' !in m && ':' !in n && a + ":" + m == b + ":" + n
    ensures a == b && m == n
  {
    var s, t := a + ":" + m, b + ":" + n;
    assert s[|a|] == ':' && t[|b|] == ':';
    assert s[..|a|] == a && t[..|b|] == b && s[|a| + 1..] == m && t[|b| + 1..] == n;
  }

  lemma NumeralHasNoColon(n: nat)
    ensures ':' !in Decimal.Print(n)
  {
    var s := Decimal.Print(n);
    forall i | 0 <= i < |s| ensures s[i] != ':' {}
  }

  lemma PrintInjective(m: nat, n: nat)
    requires Decimal.Print(m) == Decimal.Print(n)
    ensures m == n
  {
    Decimal.ParsePrint(m);
    Decimal.ParsePrint(n);
  }

  /** Two servers with non-empty host names give an event the same id only if they are one server
      and the sequence numbers agree. */
  lemma EventIDUnique(h1: string, n1: nat, h2: string, n2: nat)
    requires h1 != "" && h2 != ""
    requires EventID(ServerURN(h1), n1) == EventID(ServerURN(h2), n2)
    ensures h1 == h2 && n1 == n2
  {
    HostnameOfServer(h1);
    HostnameOfServer(h2);
    NumeralHasNoColon(n1);
    NumeralHasNoColon(n2);
    LastColonUnique(EVENT_PREFIX + h1, Decimal.Print(n1), EVENT_PREFIX + h2, Decimal.Print(n2));
    assert (EVENT_PREFIX + h1)[|EVENT_PREFIX|..] == h1 && (EVENT_PREFIX + h2)[|EVENT_PREFIX|..] == h2;
    PrintInjective(n1, n2);
  }

  /** Why the host must not be empty: an empty host shares its ids with the host that is named like
      the prefix. */
  lemma EmptyHostCollides(n: nat)
    ensures EventID(ServerURN(""), n) == EventID(ServerURN(SERVER_PREFIX), n)
  {
    assert ServerURN("") == SERVER_PREFIX;
    assert ServerURN(SERVER_PREFIX)[|SERVER_PREFIX|..] == SERVER_PREFIX;
  }

  /** The names of one server, one of its users and one of its events. */
  lemma Names()
    ensures ServerURN("irc.example.com") == "urn:irc:server:irc.example.com"
    ensures UserURN("irc.example.com", "alice") == "urn:irc:user:irc.example.com:alice"
    ensures EventID("urn:irc:server:irc.example.com", 7) == "urn:irc:event:irc.example.com:7"
  {
    var urn := "urn:irc:server:irc.example.com";
    assert urn[15..] == "irc.example.com";
    assert Decimal.Print(7) == "7";
  }
}
