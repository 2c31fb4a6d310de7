/** IPv4 addresses as the program uses `std::net::Ipv4Addr`: four octets,
    printed and parsed in dotted-decimal notation. The parser accepts exactly
    four dot-separated canonical decimal numerals, each at most 255. */
module Ipv4 {
  import opened Prelude
  import Text
  import Decimal

  type Octet = x: nat | x < 256

  datatype Addr = Addr(o0: Octet, o1: Octet, o2: Octet, o3: Octet)

  /** `Ipv4Addr::new(0, 0, 0, 0)`: the address a failed lookup reports. */
  const Unspecified: Addr := Addr(0, 0, 0, 0)

  /** Dotted-decimal text of an address. */
  function Format(a: Addr): string {
    Decimal.Show(a.o0) + "." + Decimal.Show(a.o1) + "." + Decimal.Show(a.o2) + "." + Decimal.Show(a.o3)
  }

  /** One octet's worth of text. */
  predicate IsOctetText(t: string) {
    Decimal.IsCanonical(t) && Decimal.Value(t) < 256
  }

  /** `s.parse::<Ipv4Addr>()`, with `None` for an `AddrParseError`. */
  function Parse(s: string): Option<Addr> {
    var parts := Text.Split(s, '.');
    if |parts| == 4 && IsOctetText(parts[0]) && IsOctetText(parts[1])
       && IsOctetText(parts[2]) && IsOctetText(parts[3])
    then Some(Addr(Decimal.Value(parts[0]), Decimal.Value(parts[1]),
                   Decimal.Value(parts[2]), Decimal.Value(parts[3])))
    else None
  }

  function Pieces(a: Addr): seq<string> {
    [Decimal.Show(a.o0), Decimal.Show(a.o1), Decimal.Show(a.o2), Decimal.Show(a.o3)]
  }

  lemma FormatIsJoin(a: Addr)
    ensures Format(a) == Text.Join(Pieces(a), '.')
    ensures forall i :: 0 <= i < 4 ==> '.' !in Pieces(a)[i]
  {
    var p := Pieces(a);
    assert p[1..][1..][1..] == [p[3]];
    assert p[1..][1..] == [p[2], p[3]];
    assert p[1..] == [p[1], p[2], p[3]];
    assert Text.Join([p[2], p[3]], '.') == p[2] + "." + p[3];
    assert Text.Join([p[1], p[2], p[3]], '.') == p[1] + "." + (p[2] + "." + p[3]);
    assert Text.Join(p, '.') == p[0] + "." + (p[1] + "." + (p[2] + "." + p[3]));
  }

  /** Parsing the printed form of an address gives the address back. */
  lemma ParseFormat(a: Addr)
    ensures Parse(Format(a)) == Some(a)
  {
    FormatIsJoin(a);
    Text.SplitJoin(Pieces(a), '.');
    Decimal.ValueShow(a.o0);
    Decimal.ValueShow(a.o1);
    Decimal.ValueShow(a.o2);
    Decimal.ValueShow(a.o3);
  }

  /** Whatever text parses to an address is exactly the printed form of it:
      the parser accepts one spelling per address. */
  lemma FormatParse(s: string, a: Addr)
    requires Parse(s) == Some(a)
    ensures Format(a) == s
  {
    var parts := Text.Split(s, '.');
    Decimal.ShowValue(parts[0]);
    Decimal.ShowValue(parts[1]);
    Decimal.ShowValue(parts[2]);
    Decimal.ShowValue(parts[3]);
    assert Pieces(a) == parts;
    FormatIsJoin(a);
    Text.JoinSplit(s, '.');
  }

  /** Parsing and printing are inverse: `s` parses to `a` exactly when `s` is `a` printed. */
  lemma ParseIffFormat(s: string, a: Addr)
    ensures Parse(s) == Some(a) <==> s == Format(a)
  {
    if Parse(s) == Some(a) {
      FormatParse(s, a);
    }
    if s == Format(a) {
      ParseFormat(a);
    }
  }

  /** Printed addresses hold only digits and dots. */
  lemma FormatAlphabet(a: Addr)
    ensures forall i :: 0 <= i < |Format(a)| ==> Decimal.IsDigit(Format(a)[i]) || Format(a)[i] == '.'
  {
  }

  /** The literal "0.0.0.0" the program falls back to denotes the unspecified address. */
  lemma UnspecifiedText()
    ensures Format(Unspecified) == "0.0.0.0"
    ensures Parse("0.0.0.0") == Some(Unspecified)
  {
    assert Decimal.Show(0) == "0";
    ParseFormat(Unspecified);
  }
}
