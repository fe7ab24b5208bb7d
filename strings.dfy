/** Text handling for the swarm: decimal formatting (`fmt`'s `%d`) and
    `net.SplitHostPort` for unbracketed addresses, both of which `dial` uses,
    and `Cut` and `Split` at a separator. The core never cuts or splits text;
    `Cut` and `Split` are here to state that the infohash key and the swarm
    address can be read back into their parts. */
module Strings {
  import opened Wrappers

  function DigitChar(d: int): (c: char)
    requires 0 <= d < 10
    ensures '0' <= c <= '9' && c as int - '0' as int == d
  {
    (d + '0' as int) as char
  }

  /** The decimal digits of `n`, most significant first, without leading zeros. */
  function Digits(n: nat): (s: string)
    ensures |s| >= 1
    ensures forall i :: 0 <= i < |s| ==> '0' <= s[i] <= '9'
    ensures |s| > 1 ==> s[0] != '0'
  {
    if n < 10 then [DigitChar(n)] else Digits(n / 10) + [DigitChar(n % 10)]
  }

  /** `fmt.Sprintf("%d", n)`. */
  function Itoa(n: int): (s: string)
    ensures |s| >= 1
    ensures forall i :: 0 <= i < |s| ==> s[i] == '-' || '0' <= s[i] <= '9'
  {
    if n < 0 then "-" + Digits(-n) else Digits(n)
  }

  /** The value of a non-empty string of decimal digits. */
  function ParseDigits(s: string): Option<nat>
  {
    if s == [] then None
    else if !('0' <= s[|s| - 1] <= '9') then None
    else
      var d := s[|s| - 1] as int - '0' as int;
      if |s| == 1 then Some(d)
      else match ParseDigits(s[..|s| - 1])
        case None => None
        case Some(v) => Some(10 * v + d)
  }

  /** Reads back what `Itoa` writes: an optional minus sign and digits. */
  function ParseDecimal(s: string): Option<int>
  {
    if |s| > 0 && s[0] == '-' then
      match ParseDigits(s[1..])
      case None => None
      case Some(v) => Some(-(v as int))
    else ParseDigits(s)
  }

  lemma {:induction false} DigitsRoundTrip(n: nat)
    ensures ParseDigits(Digits(n)) == Some(n)
  {
    if n >= 10 {
      var s := Digits(n);
      assert s[..|s| - 1] == Digits(n / 10);
      DigitsRoundTrip(n / 10);
    }
  }

  /** Decimal formatting loses nothing: the text gives the number back. */
  lemma ItoaRoundTrip(n: int)
    ensures ParseDecimal(Itoa(n)) == Some(n)
  {
    if n < 0 {
      var d := Digits(-n);
      var s := "-" + d;
      assert s[0] == '-' && s[1..] == d;
      DigitsRoundTrip(-n);
    } else {
      var d := Digits(n);
      assert '0' <= d[0] <= '9';
      DigitsRoundTrip(n);
    }
  }

  /** The text before and after the first `sep`, and whether there was one
      (the semantics of Go's `strings.Cut`). */
  function Cut(s: string, sep: char): (r: (string, string, bool))
    ensures r.2 <==> sep in s
    ensures r.2 ==> s == r.0 + [sep] + r.1 && sep !in r.0
    ensures !r.2 ==> r.0 == s && r.1 == ""
  {
    if s == [] then ("", "", false)
    else if s[0] == sep then ("", s[1..], true)
    else
      var (before, after, found) := Cut(s[1..], sep);
      ([s[0]] + before, after, found)
  }

  /** Cutting a joined pair at a separator the first part lacks gives the pair back. */
  lemma CutJoin(a: string, b: string, sep: char)
    requires sep !in a
    ensures Cut(a + [sep] + b, sep) == (a, b, true)
  {
    var s := a + [sep] + b;
    assert s[|a|] == sep;
    var (a', b', found) := Cut(s, sep);
    assert found && s == a' + [sep] + b' && sep !in a';
    assert forall i :: 0 <= i < |a| ==> s[i] == a[i];
    assert forall i :: 0 <= i < |a'| ==> s[i] == a'[i];
    assert s[|a|] == sep && s[|a'|] == sep;
    assert |a'| == |a|;
    assert a' == s[..|a|] == a;
    assert b' == s[|a| + 1..] == b;
  }

  /** The pieces between occurrences of `sep` (the semantics of Go's `strings.Split`). */
  function Split(s: string, sep: char): (pieces: seq<string>)
    ensures |pieces| >= 1
    decreases |s|
  {
    var (before, after, found) := Cut(s, sep);
    if found then [before] + Split(after, sep) else [s]
  }

  lemma SplitNone(s: string, sep: char)
    requires sep !in s
    ensures Split(s, sep) == [s]
  {
  }

  lemma SplitJoin(a: string, rest: string, sep: char)
    requires sep !in a
    ensures Split(a + [sep] + rest, sep) == [a] + Split(rest, sep)
  {
    CutJoin(a, rest, sep);
  }

  /** Exactly one `:` and no brackets: the only shape `net.SplitHostPort`
      accepts outside of bracketed IPv6 literals. */
  predicate IsHostPort(s: string)
  {
    var (host, port, found) := Cut(s, ':');
    found && ':' !in port && '[' !in s && ']' !in s
  }

  /** `net.SplitHostPort(s)` with its error dropped, as the caller does: the
      host and port around the colon, or two empty strings when Go would report
      a missing port, too many colons or an unexpected bracket. */
  function SplitHostPort(s: string): (r: (string, string))
    ensures IsHostPort(s) ==> s == r.0 + ":" + r.1 && ':' !in r.0 && ':' !in r.1
    ensures !IsHostPort(s) ==> r == ("", "")
  {
    var (host, port, found) := Cut(s, ':');
    if found && ':' !in port && '[' !in s && ']' !in s then (host, port) else ("", "")
  }

  /** Neither part of a split has a bracket. */
  lemma SplitHostPortNoBrackets(s: string)
    ensures '[' !in SplitHostPort(s).0 && ']' !in SplitHostPort(s).0
    ensures '[' !in SplitHostPort(s).1 && ']' !in SplitHostPort(s).1
  {
    if IsHostPort(s) {
      var (host, port) := SplitHostPort(s);
      assert s == host + ":" + port;
      assert forall i :: 0 <= i < |host| ==> host[i] == s[i];
      assert forall i :: 0 <= i < |port| ==> port[i] == s[|host| + 1 + i];
    }
  }

  /** Joining a host and a port that have no colon or bracket and splitting
      again gives them back. */
  lemma SplitHostPortJoin(host: string, port: string)
    requires ':' !in host && ':' !in port
    requires '[' !in host && ']' !in host && '[' !in port && ']' !in port
    ensures SplitHostPort(host + ":" + port) == (host, port)
  {
    var s := host + ":" + port;
    assert s == host + [':'] + port;
    CutJoin(host, port, ':');
    forall c | c == '[' || c == ']' ensures c !in s {
      assert forall i :: 0 <= i < |s| ==> s[i] == (if i < |host| then host[i] else if i == |host| then ':' else port[i - |host| - 1]);
    }
  }
}
