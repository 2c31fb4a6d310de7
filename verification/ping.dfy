/** Extraction of the resolved address from the text a `ping` run prints.
    Only the first line matters; its address is the text between the first
    '(' and the first ')'. An empty first line means the host did not
    resolve, reported as 0.0.0.0. */
module Ping {
  import opened Prelude
  import Text
  import Ipv4
  import Decimal

  /** What `str::split('\n')` puts at index 0: the text before the first newline. */
  function FirstLine(s: string): string {
    Text.Split(s, '\n')[0]
  }

  /** `text.parse::<Ipv4Addr>().unwrap()`. */
  function ParseAddr(text: string): Result<Ipv4.Addr> {
    match Ipv4.Parse(text)
    case Some(a) => Ok(a)
    case None => Panicked(AddrParse)
  }

  /** `parse_ping_result`. */
  function ParsePingResult(pingData: string): Result<Ipv4.Addr> {
    var target := FirstLine(pingData);
    if |target| > 0 then
      match Text.IndexOf(target, '(')
      case None => Panicked(UnwrapOnNone)
      case Some(open) =>
        var startIdx := open + 1;
        match Text.IndexOf(target, ')')
        case None => Panicked(UnwrapOnNone)
        case Some(endIdx) =>
          if startIdx > endIdx then Panicked(SliceStartAfterEnd)
          else ParseAddr(target[startIdx..endIdx])
    else ParseAddr("0.0.0.0")
  }

  /** An empty first line (in particular, no output at all) reads as 0.0.0.0. */
  lemma ParseEmptyFirstLine(pingData: string)
    requires FirstLine(pingData) == ""
    ensures ParsePingResult(pingData) == Ok(Ipv4.Unspecified)
  {
    Ipv4.UnspecifiedText();
  }

  /** Nothing after the first newline affects the outcome. */
  lemma ParseOnlyFirstLine(line: string, rest: string)
    requires '\n' !in line
    ensures ParsePingResult(line + "\n" + rest) == ParsePingResult(line)
  {
    Text.FirstPiece(line, '\n', rest);
  }

  /** On a single line whose first '(' comes before its first ')', the
      outcome is the parse of the text between the two. */
  lemma ParseBetween(pre: string, inner: string, post: string)
    requires '(' !in pre && ')' !in pre && ')' !in inner
    requires '\n' !in pre + "(" + inner + ")" + post
    ensures ParsePingResult(pre + "(" + inner + ")" + post) == ParseAddr(inner)
  {
    var line := pre + "(" + inner + ")" + post;
    Text.FirstPiece(line, '\n', "");
    assert line == pre + ['('] + (inner + ")" + post);
    Text.IndexAfter(pre, '(', inner + ")" + post);
    assert line == (pre + "(" + inner) + [')'] + post;
    Text.IndexAfter(pre + "(" + inner, ')', post);
    assert line == pre + ['('] + inner + [')'] + post;
    Text.Middle(pre, '(', inner, ')', post);
    var open, close := |pre|, |pre| + 1 + |inner|;
    assert FirstLine(line) == line;
    assert Text.IndexOf(line, '(') == Some(open);
    assert Text.IndexOf(line, ')') == Some(close);
    assert line[open + 1..close] == inner;
  }

  /** A first line of the form pre "(" address ")" post, where `pre` holds no
      parenthesis, yields that address. */
  lemma ParseRoundTrip(pre: string, a: Ipv4.Addr, post: string)
    requires '(' !in pre && ')' !in pre
    requires '\n' !in pre + "(" + Ipv4.Format(a) + ")" + post
    ensures ParsePingResult(pre + "(" + Ipv4.Format(a) + ")" + post) == Ok(a)
  {
    Ipv4.FormatAlphabet(a);
    assert ')' !in Ipv4.Format(a);
    ParseBetween(pre, Ipv4.Format(a), post);
    Ipv4.ParseFormat(a);
  }

  /** A successful parse of a non-empty first line found the address between
      the first '(' and the ')' that follows it. */
  lemma ParseOkShape(pingData: string, a: Ipv4.Addr) returns (pre: string, post: string)
    requires |FirstLine(pingData)| > 0
    requires ParsePingResult(pingData) == Ok(a)
    ensures FirstLine(pingData) == pre + "(" + Ipv4.Format(a) + ")" + post
    ensures '(' !in pre && ')' !in pre
  {
    var line := FirstLine(pingData);
    var open := Text.IndexOf(line, '(').value;
    var close := Text.IndexOf(line, ')').value;
    assert open + 1 <= close;
    var inner := line[open + 1..close];
    assert ParseAddr(inner) == Ok(a);
    assert Ipv4.Parse(inner) == Some(a);
    Ipv4.FormatParse(inner, a);
    pre, post := line[..open], line[close + 1..];
    Text.Around(line, open, close);
  }

  /** For a non-empty first line the parse succeeds with `a` exactly when the
      line has the form pre "(" a ")" post with no parenthesis in `pre`. */
  lemma ParseOkIff(pingData: string, a: Ipv4.Addr)
    requires |FirstLine(pingData)| > 0
    ensures ParsePingResult(pingData) == Ok(a) <==>
      exists pre: string, post: string ::
        FirstLine(pingData) == pre + "(" + Ipv4.Format(a) + ")" + post && '(' !in pre && ')' !in pre
  {
    var line := FirstLine(pingData);
    if ParsePingResult(pingData) == Ok(a) {
      var pre, post := ParseOkShape(pingData, a);
    }
    if exists pre: string, post: string ::
         line == pre + "(" + Ipv4.Format(a) + ")" + post && '(' !in pre && ')' !in pre {
      var pre: string, post: string :|
        line == pre + "(" + Ipv4.Format(a) + ")" + post && '(' !in pre && ')' !in pre;
      assert '\n' !in line;
      ParseRoundTrip(pre, a, post);
      ParseFirstLineOnly(pingData);
    }
  }

  /** The outcome is decided by the first line alone. */
  lemma ParseFirstLineOnly(pingData: string)
    ensures ParsePingResult(pingData) == ParsePingResult(FirstLine(pingData))
  {
    var line := FirstLine(pingData);
    Text.FirstPiece(line, '\n', "");
  }

  /** The panics of a non-empty first line: a missing parenthesis is an
      `unwrap` on `None`, and a ')' before the first '(' is a reversed slice. */
  lemma ParsePanics(pingData: string)
    requires |FirstLine(pingData)| > 0
    ensures ParsePingResult(pingData) == Panicked(UnwrapOnNone) <==>
      '(' !in FirstLine(pingData) || ')' !in FirstLine(pingData)
    ensures ParsePingResult(pingData) == Panicked(SliceStartAfterEnd) <==>
      '(' in FirstLine(pingData) &&
      exists j :: 0 <= j < |FirstLine(pingData)| && FirstLine(pingData)[j] == ')' && '(' !in FirstLine(pingData)[..j]
  {
    var line := FirstLine(pingData);
    if '(' in line && ')' in line {
      var open := Text.IndexOf(line, '(').value;
      var close := Text.IndexOf(line, ')').value;
      if open + 1 > close {
        assert line[close] == ')' && '(' !in line[..close];
      } else {
        forall j | 0 <= j < |line| && line[j] == ')'
          ensures '(' in line[..j]
        {
          assert forall k :: 0 <= k < close ==> line[..close][k] == line[k];
          assert j >= close;
          assert line[..j][open] == '(';
        }
      }
    }
  }

  /** The resolved-host case of the program's own tests. */
  lemma ParseResolvedExample()
    ensures ParsePingResult("PING au548.nordvpn.com (41.42.43.44): 56 data bytes")
         == Ok(Ipv4.Addr(41, 42, 43, 44))
  {
    var a := Ipv4.Addr(41, 42, 43, 44);
    ExampleParens();
    ExampleLine();
    ExampleNoNewline();
    assert Decimal.Show(41) == "41";
    assert Decimal.Show(42) == "42";
    assert Decimal.Show(43) == "43";
    assert Decimal.Show(44) == "44";
    assert Ipv4.Format(a) == "41.42.43.44";
    Ipv4.ParseFormat(a);
    ParseBetween("PING au548.nordvpn.com ", "41.42.43.44", ": 56 data bytes");
  }

  /** The test's ping line has no parenthesis before the address and no `)`
      inside it. */
  lemma ExampleParens()
    ensures '(' !in "PING au548.nordvpn.com " && ')' !in "PING au548.nordvpn.com "
    ensures ')' !in "41.42.43.44"
  {
    var host := "au548.nordvpn.com ";
    assert '(' !in "PING " && ')' !in "PING ";
    assert '(' !in host && ')' !in host;
    assert "PING au548.nordvpn.com " == "PING " + host;
  }

  /** The test's ping line is `pre(inner)post`. */
  lemma ExampleLine()
    ensures "PING au548.nordvpn.com " + "(" + "41.42.43.44" + ")" + ": 56 data bytes"
         == "PING au548.nordvpn.com (41.42.43.44): 56 data bytes"
  {
  }

  /** The test's ping line holds no newline. */
  lemma ExampleNoNewline()
    ensures '\n' !in "PING au548.nordvpn.com " + "(" + "41.42.43.44" + ")" + ": 56 data bytes"
  {
    assert '\n' !in "PING au548.nordvpn.com ";
    assert '\n' !in "41.42.43.44";
    assert '\n' !in ": 56 data bytes";
  }

  /** The empty-output case of the program's own tests. */
  lemma ParseEmptyExample()
    ensures ParsePingResult("") == Ok(Ipv4.Unspecified)
  {
    assert Text.IndexOf("", '\n') == None;
    ParseEmptyFirstLine("");
  }
}
