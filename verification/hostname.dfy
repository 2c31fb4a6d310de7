/** Host-name synthesis: the candidate server name for a country prefix and a
    numeric id, and the inverse that recovers the id from a name. */
module Hostname {
  import opened Prelude
  import Decimal

  const Domain: string := ".nordvpn.com"

  /** `get_vpn_string`: the prefix, the id in decimal, then the domain. */
  function VpnString(prefix: string, num: U32): string {
    prefix + Decimal.Show(num) + Domain
  }

  /** The id a host name stands for under `prefix`, if the name has the shape
      prefix, canonical numeral, domain. */
  function IdOf(prefix: string, host: string): Option<nat> {
    if |host| >= |prefix| + |Domain|
       && host[..|prefix|] == prefix
       && host[|host| - |Domain|..] == Domain
       && Decimal.IsCanonical(host[|prefix|..|host| - |Domain|])
    then Some(Decimal.Value(host[|prefix|..|host| - |Domain|]))
    else None
  }

  /** The number in a name of the form prefix, numeral, domain can be read back. */
  lemma IdOfName(prefix: string, n: nat)
    ensures IdOf(prefix, prefix + Decimal.Show(n) + Domain) == Some(n)
  {
    var h := prefix + Decimal.Show(n) + Domain;
    var digits := Decimal.Show(n);
    assert h[..|prefix|] == prefix;
    assert h[|h| - |Domain|..] == Domain;
    assert h[|prefix|..|h| - |Domain|] == digits;
    Decimal.ValueShow(n);
  }

  /** The id can be read back from the synthesised name. */
  lemma IdOfVpnString(prefix: string, num: U32)
    ensures IdOf(prefix, VpnString(prefix, num)) == Some(num)
  {
    IdOfName(prefix, num);
  }

  /** Conversely, a name from which an id is read back is the synthesised name of that id. */
  lemma VpnStringOfId(prefix: string, host: string, num: U32)
    requires IdOf(prefix, host) == Some(num)
    ensures VpnString(prefix, num) == host
  {
    var digits := host[|prefix|..|host| - |Domain|];
    Decimal.ShowValue(digits);
    assert host == host[..|prefix|] + digits + host[|host| - |Domain|..];
  }

  /** For a fixed prefix, distinct ids give distinct names. */
  lemma VpnStringInjective(prefix: string, m: U32, n: U32)
    ensures VpnString(prefix, m) == VpnString(prefix, n) <==> m == n
  {
    IdOfVpnString(prefix, m);
    IdOfVpnString(prefix, n);
  }

  /** The names for id 42 under the prefixes "au" and "". */
  lemma VpnStringExamples()
    ensures VpnString("au", 42) == "au42.nordvpn.com"
    ensures VpnString("", 42) == "42.nordvpn.com"
  {
    assert Decimal.Show(42) == "42";
  }
}
