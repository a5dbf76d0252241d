/**
 * Peer addresses as text. A node announces itself with the datagram
 * `"<host>:<port>"` (main.py line 45); the listener takes a datagram apart
 * with `split(':')`, unpacks exactly two parts and converts the second with
 * `int()` (main.py lines 123-125); the peer list shows every peer as
 * `"ip:port"` (main.py line 137). Also the `repr` of an address tuple, which
 * the "New peer discovered" notice embeds (main.py line 130).
 */
module Announcement {
  import opened Wrappers

  /** A peer `(ip, port)` tuple; Python compares such tuples by value. */
  datatype Address = Address(host: string, port: int)

  /** The ValueError a datagram can raise while it is parsed. */
  datatype ParseError =
    | UnpackMismatch(parts: nat)   // `peer_ip, peer_port = ...split(':')` got `parts` values
    | InvalidLiteral(text: string) // `int(text)` refused `text`

  // ---------------------------------------------------------------- str.split

  /** Occurrences of `c` in `s`. */
  function Count(s: string, c: char): (n: nat)
    ensures n <= |s|
    ensures n == 0 <==> c !in s
  {
    if s == [] then 0 else (if s[0] == c then 1 else 0) + Count(s[1..], c)
  }

  /** `sep.join(parts)`. */
  function Join(parts: seq<string>, sep: char): string
    requires |parts| >= 1
  {
    if |parts| == 1 then parts[0] else parts[0] + [sep] + Join(parts[1..], sep)
  }

  /**
   * `s.split(sep)` for a one-character separator: the pieces between
   * separators, empty pieces included, so there is one more piece than
   * separators (see `SplitJoin` for joining them back).
   */
  function Split(s: string, sep: char): (parts: seq<string>)
    ensures |parts| == Count(s, sep) + 1
    ensures forall i :: 0 <= i < |parts| ==> sep !in parts[i]
  {
    if s == [] then [[]]
    else
      var rest := Split(s[1..], sep);
      if s[0] == sep then [[]] + rest else [[s[0]] + rest[0]] + rest[1..]
  }

  /** Joining the pieces of a split with the separator gives the text back. */
  lemma {:induction false} SplitJoin(s: string, sep: char)
    ensures Join(Split(s, sep), sep) == s
  {
    if s != [] {
      var rest := Split(s[1..], sep);
      SplitJoin(s[1..], sep);
      if s[0] == sep {
        var parts := [[]] + rest;
        assert parts[1..] == rest;
        assert Join(parts, sep) == [sep] + Join(rest, sep);
      } else {
        JoinExtendFirst(s[0], rest, sep);
      }
      assert s == [s[0]] + s[1..];
    }
  }

  /** Putting a character in front of the first part puts it in front of the joined text. */
  lemma JoinExtendFirst(c: char, parts: seq<string>, sep: char)
    requires |parts| >= 1
    ensures Join([[c] + parts[0]] + parts[1..], sep) == [c] + Join(parts, sep)
  {
    var extended := [[c] + parts[0]] + parts[1..];
    assert extended[1..] == parts[1..];
  }

  /** Splitting `h:t` where neither side holds the separator gives exactly the two sides. */
  lemma {:induction false} SplitAtOnlySeparator(h: string, t: string, sep: char)
    requires sep !in h && sep !in t
    ensures Split(h + [sep] + t, sep) == [h, t]
  {
    var s := h + [sep] + t;
    if h == [] {
      assert s[1..] == t;
      var rest := Split(t, sep);
      SplitJoin(t, sep);
      assert |rest| == 1 && rest[0] == Join(rest, sep) == t;
    } else {
      assert s[1..] == h[1..] + [sep] + t;
      SplitAtOnlySeparator(h[1..], t, sep);
      assert [s[0]] + h[1..] == h;
    }
  }

  // ---------------------------------------------------------------- int(text)

  /**
   * The whitespace `int()` skips at both ends of an all-ASCII literal: space
   * and U+0009 to U+000D. U+001C to U+001F, which `str.isspace()` accepts,
   * are not skipped.
   */
  predicate IsSpace(c: char) {
    c == ' ' || 0x09 <= c as int <= 0x0D
  }

  predicate IsDigit(c: char) {
    '0' <= c <= '9'
  }

  /** Drops leading whitespace. */
  function TrimStart(s: string): (r: string)
    ensures |r| <= |s| && r == s[|s| - |r|..]
    ensures r == [] || !IsSpace(r[0])
    ensures forall i :: 0 <= i < |s| - |r| ==> IsSpace(s[i])
  {
    if s != [] && IsSpace(s[0]) then TrimStart(s[1..]) else s
  }

  /** Drops trailing whitespace. */
  function TrimEnd(s: string): (r: string)
    ensures |r| <= |s| && r == s[..|r|]
    ensures r == [] || !IsSpace(r[|r| - 1])
    ensures forall i :: |r| <= i < |s| ==> IsSpace(s[i])
  {
    if s != [] && IsSpace(s[|s| - 1]) then TrimEnd(s[..|s| - 1]) else s
  }

  /** `s.strip()` as `int()` applies it. */
  function Strip(s: string): (r: string)
    ensures r == [] || (!IsSpace(r[0]) && !IsSpace(r[|r| - 1]))
  {
    TrimEnd(TrimStart(s))
  }

  /**
   * The digits of a base-10 literal: digits, where a single underscore may
   * separate two digits.
   */
  predicate IsDigitPart(s: string) {
    && |s| > 0
    && IsDigit(s[0])
    && IsDigit(s[|s| - 1])
    && (forall i :: 0 <= i < |s| ==> IsDigit(s[i]) || s[i] == '_')
    && (forall i :: 0 <= i < |s| - 1 && s[i] == '_' ==> s[i + 1] != '_')
  }

  /** The number the digits of `s` spell, underscores skipped. */
  function DigitsValue(s: string): nat
  {
    if s == [] then 0
    else if IsDigit(s[|s| - 1]) then 10 * DigitsValue(s[..|s| - 1]) + (s[|s| - 1] as int - '0' as int)
    else DigitsValue(s[..|s| - 1])
  }

  /**
   * `int(text)`: surrounding whitespace, an optional sign, then a digit part.
   * `None` stands for the ValueError `int()` raises on anything else.
   */
  function ParseInt(text: string): (r: Option<int>)
    ensures r.Some? ==> var t := Strip(text);
      |t| > 0 && IsDigit(t[|t| - 1]) && (r.value < 0 ==> t[0] == '-')
  {
    var t := Strip(text);
    if |t| > 0 && (t[0] == '-' || t[0] == '+') && IsDigitPart(t[1..]) then
      Some(if t[0] == '-' then -(DigitsValue(t[1..]) as int) else DigitsValue(t[1..]))
    else if IsDigitPart(t) then
      Some(DigitsValue(t))
    else
      None
  }

  /** The stripped text is a run of the original, starting after the leading whitespace. */
  lemma StripWithin(text: string)
    ensures var off := |text| - |TrimStart(text)|;
      off + |Strip(text)| <= |text| && Strip(text) == text[off..off + |Strip(text)|]
  {
    var u := TrimStart(text);
    var t := TrimEnd(u);
    assert t == u[..|t|];
  }

  /** Text without a single digit is always refused by `int()`. */
  lemma ParseIntNeedsDigit(text: string)
    requires forall i :: 0 <= i < |text| ==> !IsDigit(text[i])
    ensures ParseInt(text) == None
  {
    var t := Strip(text);
    StripWithin(text);
    var off := |text| - |TrimStart(text)|;
    forall i | 0 <= i < |t|
      ensures !IsDigit(t[i])
    {
      assert t[i] == text[off + i];
    }
    assert !IsDigitPart(t);
    if |t| > 1 {
      assert t[1..][0] == t[1];
    }
  }

  // ---------------------------------------------------------------- str(int)

  function DigitChar(d: nat): (c: char)
    requires d < 10
    ensures IsDigit(c) && c as int - '0' as int == d
  {
    ('0' as int + d) as char
  }

  /** `str(n)` for a natural number: decimal digits, no leading zero. */
  function NatToString(n: nat): (s: string)
    ensures |s| > 0 && forall i :: 0 <= i < |s| ==> IsDigit(s[i])
    ensures |s| > 1 ==> s[0] != '0'
    ensures DigitsValue(s) == n
  {
    if n < 10 then
      [DigitChar(n)]
    else
      var prefix := NatToString(n / 10);
      var s := prefix + [DigitChar(n % 10)];
      assert s[..|s| - 1] == prefix;
      s
  }

  /** `str(p)` / `f"{p}"` for any integer: a minus sign exactly when `p` is negative, then digits. */
  function IntToString(p: int): (s: string)
    ensures |s| > 0 && (s[0] == '-' <==> p < 0)
    ensures forall i :: 0 <= i < |s| ==> IsDigit(s[i]) || (i == 0 && s[i] == '-')
  {
    if p < 0 then ['-'] + NatToString(-p) else NatToString(p)
  }

  /** Text that begins and ends with a non-space is left as it is by `strip()`. */
  lemma StripUnchanged(s: string)
    requires s != [] && !IsSpace(s[0]) && !IsSpace(s[|s| - 1])
    ensures Strip(s) == s
  {
    assert TrimStart(s) == s;
  }

  /** `int()` accepts a digit part. */
  lemma ParseIntOfDigitPart(d: string)
    requires IsDigitPart(d)
    ensures ParseInt(d) == Some(DigitsValue(d))
  {
    StripUnchanged(d);
    assert !(d[0] == '-' || d[0] == '+');
  }

  /** `int()` accepts a digit part after a minus sign, as a negative number. */
  lemma ParseIntOfNegatedDigitPart(d: string)
    requires IsDigitPart(d)
    ensures ParseInt(['-'] + d) == Some(-(DigitsValue(d) as int))
  {
    var negative := ['-'] + d;
    assert negative[1..] == d;
    assert negative[|negative| - 1] == d[|d| - 1];
    StripUnchanged(negative);
    assert negative[0] == '-';
  }

  /** `int()` reads back what `str()` writes, negative numbers included. */
  lemma ParseIntToString(p: int)
    ensures ParseInt(IntToString(p)) == Some(p)
  {
    var digits := NatToString(if p < 0 then -p else p);
    assert IsDigitPart(digits);
    if p < 0 {
      ParseIntOfNegatedDigitPart(digits);
    } else {
      ParseIntOfDigitPart(digits);
    }
  }

  // ---------------------------------------------------------------- the announcement

  /** Occurrences add up over a concatenation. */
  lemma {:induction false} CountAppend(s: string, t: string, c: char)
    ensures Count(s + t, c) == Count(s, c) + Count(t, c)
  {
    if s == [] {
      assert s + t == t;
    } else {
      assert (s + t)[0] == s[0] && (s + t)[1..] == s[1..] + t;
      CountAppend(s[1..], t, c);
    }
  }

  /**
   * `f"{host}:{port}"`: the discovery datagram, and one line of the peer
   * list. The port adds no ':', so a host without one gives a text with
   * exactly the one ':' the listener's unpacking needs.
   */
  function FormatAddress(a: Address): (s: string)
    ensures Count(s, ':') == Count(a.host, ':') + 1
  {
    var port := IntToString(a.port);
    CountAppend(a.host, [':'], ':');
    CountAppend(a.host + [':'], port, ':');
    a.host + [':'] + port
  }

  /**
   * The listener's reading of a datagram: exactly one ':' (otherwise the
   * unpacking fails), the text before it is the host and the text after it
   * must satisfy `int()`.
   */
  function ParseAnnouncement(message: string): (r: Result<Address, ParseError>)
    ensures r.Err? && r.error.UnpackMismatch? <==> Count(message, ':') != 1
    ensures r.Ok? ==> ':' !in r.value.host
    ensures r.Err? && r.error.InvalidLiteral? ==> ':' !in r.error.text
  {
    var parts := Split(message, ':');
    if |parts| != 2 then
      Err(UnpackMismatch(|parts|))
    else
      match ParseInt(parts[1])
      case None => Err(InvalidLiteral(parts[1]))
      case Some(port) => Ok(Address(parts[0], port))
  }

  /**
   * What a parse result means: a message fails to unpack, naming how many
   * parts it had, exactly when it does not hold one ':'; otherwise it is
   * either accepted as the host, one ':' and a port literal `int()` accepts,
   * or refused with the literal after the ':', which `int()` refuses.
   */
  lemma ParseAnnouncementCases(message: string)
    ensures var r := ParseAnnouncement(message);
      Count(message, ':') != 1 ==> r == Err(UnpackMismatch(Count(message, ':') + 1))
    ensures var r := ParseAnnouncement(message);
      Count(message, ':') == 1 ==> r.Ok? || r.error.InvalidLiteral?
    ensures var r := ParseAnnouncement(message);
      r.Ok? ==>
        var n := |r.value.host|;
        && n < |message| && message[..n] == r.value.host && message[n] == ':'
        && ':' !in r.value.host && ':' !in message[n + 1..]
        && ParseInt(message[n + 1..]) == Some(r.value.port)
    ensures var r := ParseAnnouncement(message);
      r.Err? && r.error.InvalidLiteral? ==>
        var n := |message| - |r.error.text| - 1;
        && 0 <= n && message[n] == ':' && message[n + 1..] == r.error.text
        && ':' !in message[..n] && ':' !in r.error.text
        && ParseInt(r.error.text) == None
  {
    var parts := Split(message, ':');
    if |parts| == 2 {
      SplitJoin(message, ':');
      assert Join(parts, ':') == parts[0] + [':'] + parts[1];
      assert message[..|parts[0]|] == parts[0] && message[|parts[0]| + 1..] == parts[1];
    }
  }

  /**
   * A message with a single ':' is accepted exactly when `int()` accepts the
   * text after it, as that host and port; otherwise it is refused naming that
   * text.
   */
  lemma SingleSeparatorCases(host: string, port: string)
    requires ':' !in host && ':' !in port
    ensures ParseAnnouncement(host + [':'] + port) ==
      match ParseInt(port)
      case Some(p) => Ok(Address(host, p))
      case None => Err(InvalidLiteral(port))
  {
    SplitAtOnlySeparator(host, port, ':');
  }

  /** Parsing an announcement gives back the address that was formatted, whenever its host has no ':'. */
  lemma AnnouncementRoundTrip(a: Address)
    requires ':' !in a.host
    ensures ParseAnnouncement(FormatAddress(a)) == Ok(a)
  {
    var t := IntToString(a.port);
    IntToStringHasNoColon(a.port);
    SplitAtOnlySeparator(a.host, t, ':');
    ParseIntToString(a.port);
  }

  /** A single ':' followed by a port without a single digit is refused by `int()`, naming that text. */
  lemma NonNumericPortRejected(host: string, port: string)
    requires ':' !in host && ':' !in port
    requires forall i :: 0 <= i < |port| ==> !IsDigit(port[i])
    ensures ParseAnnouncement(host + [':'] + port) == Err(InvalidLiteral(port))
  {
    SplitAtOnlySeparator(host, port, ':');
    ParseIntNeedsDigit(port);
  }

  /**
   * A character that is not a digit, an underscore, a sign or whitespace
   * anywhere in the text makes `int()` refuse it: whitespace is skipped
   * only at the ends, so the character stays inside the stripped literal,
   * where only a sign, digits and underscores may appear.
   */
  lemma ParseIntRefusesForeignChar(text: string, k: nat)
    requires k < |text| && !IsDigit(text[k]) && text[k] != '_' && text[k] != '-' && text[k] != '+'
    requires !IsSpace(text[k])
    ensures ParseInt(text) == None
  {
    var u := TrimStart(text);
    var t := TrimEnd(u);
    var off := |text| - |u|;
    assert k >= off;
    assert k - off < |t|;
    assert t[k - off] == text[k];
    assert !IsDigitPart(t);
    if |t| > 0 && k - off > 0 {
      assert t[1..][k - off - 1] == text[k];
    }
  }

  /** `int()` does not skip U+001C to U+001F, so a literal that starts with one of them is refused. */
  lemma ParseIntRefusesSeparatorStart(text: string)
    requires text != [] && 0x1C <= text[0] as int <= 0x1F
    ensures ParseInt(text) == None
  {
    assert TrimStart(text) == text;
    var t := TrimEnd(text);
    assert t != [] && t[0] == text[0];
  }

  /** A datagram whose port literal starts with U+001C to U+001F is refused, naming that literal. */
  lemma InformationSeparatorRefused(host: string, rest: string, c: char)
    requires ':' !in host && ':' !in rest && 0x1C <= c as int <= 0x1F
    ensures ParseAnnouncement(host + [':'] + ([c] + rest)) == Err(InvalidLiteral([c] + rest))
  {
    SingleSeparatorCases(host, [c] + rest);
    ParseIntRefusesSeparatorStart([c] + rest);
  }

  /** A datagram whose port holds a character `int()` cannot place, such as `"8o8"`, is refused naming that port. */
  lemma ForeignPortCharRefused(host: string, port: string, k: nat)
    requires ':' !in host && ':' !in port
    requires k < |port| && !IsDigit(port[k]) && port[k] != '_' && port[k] != '-' && port[k] != '+'
    requires !IsSpace(port[k])
    ensures ParseAnnouncement(host + [':'] + port) == Err(InvalidLiteral(port))
  {
    SingleSeparatorCases(host, port);
    ParseIntRefusesForeignChar(port, k);
  }

  /** A formatted port is a sign and digits, so it never holds the separator. */
  lemma IntToStringHasNoColon(p: int)
    ensures ':' !in IntToString(p)
  {
    var t := IntToString(p);
    if p < 0 {
      assert forall i :: 1 <= i < |t| ==> t[i] == NatToString(-p)[i - 1];
    }
    assert forall i :: 0 <= i < |t| ==> t[i] != ':';
  }

  // ---------------------------------------------------------------- peer list rendering

  /**
   * The peer list as shown (`update_peer_list`): one `"ip:port"` line per
   * peer, in list order; each line is the same text the peer would
   * announce, so it reads back to that peer.
   */
  function PeerListLines(peers: seq<Address>): (lines: seq<string>)
    ensures |lines| == |peers|
  {
    seq(|peers|, i requires 0 <= i < |peers| => FormatAddress(peers[i]))
  }

  /** Every line of the peer list reads back, as an announcement, to its peer whenever the host has no ':'. */
  lemma PeerListLinesReadBack(peers: seq<Address>)
    ensures var lines := PeerListLines(peers);
      forall i :: 0 <= i < |peers| && ':' !in peers[i].host ==> ParseAnnouncement(lines[i]) == Ok(peers[i])
  {
    forall i | 0 <= i < |peers| && ':' !in peers[i].host
      ensures ParseAnnouncement(PeerListLines(peers)[i]) == Ok(peers[i])
    {
      AnnouncementRoundTrip(peers[i]);
    }
  }

  // ---------------------------------------------------------------- repr of an address

  function HexDigit(d: nat): char
    requires d < 16
  {
    if d < 10 then DigitChar(d) else ('a' as int + d - 10) as char
  }

  /** One character inside a Python string literal quoted with `quote`. */
  function ReprChar(c: char, quote: char): (r: string)
    ensures |r| >= 1
  {
    var v := c as int;
    if c == '\\' then "\\\\"
    else if c == quote then ['\\', quote]
    else if c == '\t' then "\\t"
    else if c == '\n' then "\\n"
    else if c == '\r' then "\\r"
    else if v < 0x20 || 0x7F <= v <= 0xA0 || v == 0xAD then
      ['\\', 'x', HexDigit(v / 16), HexDigit(v % 16)]
    else [c]
  }

  function ReprBody(s: string, quote: char): (r: string)
    ensures |r| >= |s|
  {
    if s == [] then [] else ReprChar(s[0], quote) + ReprBody(s[1..], quote)
  }

  /** `repr(s)`: single quotes unless `s` holds a single quote and no double quote. */
  function StrRepr(s: string): (r: string)
    ensures |r| >= |s| + 2 && r[0] == r[|r| - 1]
    ensures r[0] == '"' <==> '\'' in s && '"' !in s
    ensures r[0] == '\'' || r[0] == '"'
  {
    var quote := if '\'' in s && '"' !in s then '"' else '\'';
    [quote] + ReprBody(s, quote) + [quote]
  }

  /** `str((host, port))`, as the f-string of the notice renders the tuple. */
  function AddressRepr(a: Address): (r: string)
    ensures |r| > 0 && r[0] == '(' && r[|r| - 1] == ')'
    ensures var port := IntToString(a.port);
      |r| > |port| + 1 && r[|r| - 1 - |port|..|r| - 1] == port
  {
    "(" + StrRepr(a.host) + ", " + IntToString(a.port) + ")"
  }

  /** A character that `repr` copies unchanged whatever the quote. */
  predicate IsPlainChar(c: char) {
    var v := c as int;
    0x20 <= v < 0x7F && c != '\\' && c != '\'' && c != '"'
  }

  /** A host made of plain printable ASCII appears between single quotes as it is. */
  lemma {:induction false} PlainReprBody(s: string, quote: char)
    requires forall i :: 0 <= i < |s| ==> IsPlainChar(s[i])
    requires quote == '\'' || quote == '"'
    ensures ReprBody(s, quote) == s
  {
    if s != [] {
      PlainReprBody(s[1..], quote);
    }
  }

  /** The notice shows a plain host exactly as `('host', port)`. */
  lemma PlainAddressRepr(a: Address)
    requires forall i :: 0 <= i < |a.host| ==> IsPlainChar(a.host[i])
    ensures AddressRepr(a) == "('" + a.host + "', " + IntToString(a.port) + ")"
  {
    assert forall i :: 0 <= i < |a.host| ==> a.host[i] != '\'';
    PlainReprBody(a.host, '\'');
  }

  /** The text the discovery listener fans out after adding `a`: a fixed lead-in, then the address tuple. */
  function NewPeerNotice(a: Address): (r: string)
    ensures |r| > 21 && r[..21] == "New peer discovered: "
  {
    "New peer discovered: " + AddressRepr(a)
  }
}
