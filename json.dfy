/** JSON string literals as section 7 of RFC 8259 defines them: the quoting that
    JsonConvert.ToString performs, the decoding that
    JsonConvert.DeserializeObject<string> performs, and the regular expression
    "[^"\\]*(?:\\.[^"\\]*)*" that finds a quoted substring. */
module IniJson {
  import opened IniBase

  // ---------------------------------------------------------------------
  // Hexadecimal digits

  predicate IsHexDigit(c: char) {
    ('0' <= c <= '9') || ('a' <= c <= 'f') || ('A' <= c <= 'F')
  }

  function HexDigitValue(c: char): (v: nat)
    requires IsHexDigit(c)
    ensures v < 16
  {
    if '0' <= c <= '9' then c as int - '0' as int
    else if 'a' <= c <= 'f' then c as int - 'a' as int + 10
    else c as int - 'A' as int + 10
  }

  /** The lower-case hexadecimal digit of `v`. */
  function HexChar(v: nat): (c: char)
    requires v < 16
    ensures IsHexDigit(c) && HexDigitValue(c) == v
  {
    if v < 10 then ('0' as int + v) as char else ('a' as int + v - 10) as char
  }

  /** The value of the four hexadecimal digits t[i..i+4], if they are digits. */
  function Hex4(t: string, i: nat): (r: Option<nat>)
    ensures r.Some? ==> r.value < 0x10000
  {
    if i + 4 <= |t| && IsHexDigit(t[i]) && IsHexDigit(t[i + 1]) && IsHexDigit(t[i + 2]) && IsHexDigit(t[i + 3])
    then Some(((HexDigitValue(t[i]) * 16 + HexDigitValue(t[i + 1])) * 16 + HexDigitValue(t[i + 2])) * 16
              + HexDigitValue(t[i + 3]))
    else None
  }

  // ---------------------------------------------------------------------
  // Escaping

  /** The characters section 7 of RFC 8259 requires to be escaped. */
  predicate NeedsEscape(c: char) {
    c == '"' || c == '\\' || c < ' '
  }

  /** The escape of one character inside a JSON string literal. */
  function EscapeChar(c: char): (r: string)
    ensures r != []
    ensures NeedsEscape(c) <==> r[0] == '\\'
    ensures !NeedsEscape(c) ==> r == [c]
  {
    if c == '"' then "\\\""
    else if c == '\\' then "\\\\"
    else if c == '\U{8}' then "\\b"
    else if c == '\t' then "\\t"
    else if c == '\n' then "\\n"
    else if c == '\U{C}' then "\\f"
    else if c == '\r' then "\\r"
    else if c < ' ' then "\\u00" + [HexChar(c as int / 16), HexChar(c as int % 16)]
    else [c]
  }

  /** The characters of `s` escaped one by one: the inside of its literal. */
  function EscapeBody(s: string): string {
    if s == [] then [] else EscapeChar(s[0]) + EscapeBody(s[1..])
  }

  /** JsonConvert.ToString(string): the JSON string literal of `s`. */
  function JsonQuote(s: string): string {
    "\"" + EscapeBody(s) + "\""
  }

  lemma {:induction false} EscapeBodyHasBackslash(s: string)
    ensures '\\' in EscapeBody(s) <==> exists m | 0 <= m < |s| :: NeedsEscape(s[m])
  {
    if s != [] {
      EscapeBodyHasBackslash(s[1..]);
      var e := EscapeChar(s[0]);
      assert '\\' in EscapeBody(s) <==> '\\' in e || '\\' in EscapeBody(s[1..]);
      assert '\\' in e <==> NeedsEscape(s[0]);
      if exists m | 0 <= m < |s| :: NeedsEscape(s[m]) {
        var m :| 0 <= m < |s| && NeedsEscape(s[m]);
        assert m == 0 || NeedsEscape(s[1..][m - 1]);
      }
      if exists m | 0 <= m < |s[1..]| :: NeedsEscape(s[1..][m]) {
        var m :| 0 <= m < |s[1..]| && NeedsEscape(s[1..][m]);
        assert NeedsEscape(s[m + 1]);
      }
    }
  }

  /** The literal contains a backslash exactly when some character needed escaping. */
  lemma JsonQuoteHasBackslash(s: string)
    ensures '\\' in JsonQuote(s) <==> exists m | 0 <= m < |s| :: NeedsEscape(s[m])
  {
    EscapeBodyHasBackslash(s);
    assert '\\' in JsonQuote(s) <==> '\\' in EscapeBody(s);
  }

  // ---------------------------------------------------------------------
  // Decoding

  /** The character of a code point, when it is a Unicode scalar value. */
  function CodePoint(v: nat): (r: Option<char>)
  {
    if v < 0xD800 || (0xE000 <= v < 0x11_0000) then Some(v as char) else None
  }

  /** The content of a JSON string literal whose inside is `t`; None where
      a decoder rejects an escape sequence. */
  function Decode(t: string): (r: Option<string>)
    decreases |t|
  {
    if t == [] then Some([])
    else if t[0] != '\\' then
      match Decode(t[1..])
      case Some(rest) => Some([t[0]] + rest)
      case None => None
    else if |t| < 2 then None
    else
      var e := t[1];
      var simple :=
        if e == '"' then Some('"') else if e == '\\' then Some('\\') else if e == '/' then Some('/')
        else if e == 'b' then Some('\U{8}') else if e == 'f' then Some('\U{C}') else if e == 'n' then Some('\n')
        else if e == 'r' then Some('\r') else if e == 't' then Some('\t') else None;
      if simple.Some? then
        match Decode(t[2..])
        case Some(rest) => Some([simple.value] + rest)
        case None => None
      else if e != 'u' then None
      else
        match Hex4(t, 2)
        case None => None
        case Some(v) =>
          if 0xD800 <= v < 0xDC00 then
            // a high surrogate: only a following low surrogate escape completes it
            if |t| >= 8 && t[6] == '\\' && t[7] == 'u' && Hex4(t, 8).Some? && 0xDC00 <= Hex4(t, 8).value < 0xE000 then
              match CodePoint(0x1_0000 + (v - 0xD800) * 0x400 + (Hex4(t, 8).value - 0xDC00))
              case None => None
              case Some(c) =>
                match Decode(t[12..])
                case Some(rest) => Some([c] + rest)
                case None => None
            else None
          else
            match CodePoint(v)
            case None => None
            case Some(c) =>
              match Decode(t[6..])
              case Some(rest) => Some([c] + rest)
              case None => None
  }

  lemma DecodeEscapeChar(c: char, t: string)
    ensures Decode(EscapeChar(c) + t) ==
      (match Decode(t) case Some(rest) => Some([c] + rest) case None => None)
  {
    var e := EscapeChar(c);
    var u := e + t;
    if c < ' ' && c != '\U{8}' && c != '\t' && c != '\n' && c != '\U{C}' && c != '\r' {
      assert u[0] == '\\' && u[1] == 'u';
      assert Hex4(u, 2) == Some(c as int) by {
        assert u[2] == '0' && u[3] == '0' && u[4] == HexChar(c as int / 16) && u[5] == HexChar(c as int % 16);
      }
      assert u[6..] == t;
    } else if NeedsEscape(c) {
      assert u[2..] == t;
    } else {
      assert u[1..] == t;
    }
  }

  /** Decoding undoes escaping. */
  lemma {:induction false} DecodeEscapeBody(s: string)
    ensures Decode(EscapeBody(s)) == Some(s)
  {
    if s != [] {
      DecodeEscapeBody(s[1..]);
      DecodeEscapeChar(s[0], EscapeBody(s[1..]));
      assert [s[0]] + s[1..] == s;
    }
  }

  // ---------------------------------------------------------------------
  // The quoted-substring regular expression

  /** The inside of a well-formed quoted substring: characters other than a quote
      and a backslash, and pairs of a backslash and any character but a line feed
      (the regex `.` does not match '\n'). */
  predicate QuotedBody(t: string)
    decreases |t|
  {
    t == []
    || (t[0] != '"' && t[0] != '\\' && QuotedBody(t[1..]))
    || (|t| >= 2 && t[0] == '\\' && t[1] != '\n' && QuotedBody(t[2..]))
  }

  /** The scan the regex performs after an opening quote at j - 1: the index of
      the first unescaped quote, or None when it meets the end of `s` or a
      backslash before a line feed or at the end. */
  function ScanQuoted(s: string, j: nat): (r: Option<nat>)
    decreases |s| - j
  {
    if j >= |s| then None
    else if s[j] == '"' then Some(j)
    else if s[j] == '\\' then
      if j + 1 < |s| && s[j + 1] != '\n' then ScanQuoted(s, j + 2) else None
    else ScanQuoted(s, j + 1)
  }

  /** The scan finds exactly the closing quotes of well-formed quoted substrings,
      and at most one of them for a given opening quote. */
  lemma {:induction false} ScanQuotedIff(s: string, j: nat, e: nat)
    ensures ScanQuoted(s, j) == Some(e) <==> (j <= e < |s| && s[e] == '"' && QuotedBody(s[j..e]))
    decreases |s| - j
  {
    if j < |s| && s[j] != '"' {
      if s[j] == '\\' {
        if j + 1 < |s| && s[j + 1] != '\n' {
          ScanQuotedIff(s, j + 2, e);
          if j + 2 <= e < |s| {
            assert s[j..e][2..] == s[j + 2..e];
          }
        }
      } else {
        ScanQuotedIff(s, j + 1, e);
        if j + 1 <= e < |s| {
          assert s[j..e][1..] == s[j + 1..e];
        }
      }
    }
  }

  /** A well-formed quoted substring starts at `a`. */
  predicate QuotedAt(s: string, a: nat) {
    a < |s| && s[a] == '"' && ScanQuoted(s, a + 1).Some?
  }

  /** Regex.Match from position `p`: the leftmost quoted substring as the index
      pair of its two quotes, or None. */
  function FindQuoted(s: string, p: nat): (r: Option<(nat, nat)>)
    ensures r.Some? ==> (p <= r.value.0 < r.value.1 < |s| && QuotedAt(s, r.value.0)
                         && ScanQuoted(s, r.value.0 + 1) == Some(r.value.1))
    ensures r.Some? ==> forall a | p <= a < r.value.0 :: !QuotedAt(s, a)
    ensures r.None? ==> forall a | p <= a :: !QuotedAt(s, a)
    decreases |s| - p
  {
    if p >= |s| then None
    else if QuotedAt(s, p) then
      ScanQuotedIff(s, p + 1, ScanQuoted(s, p + 1).value);
      Some((p, ScanQuoted(s, p + 1).value))
    else FindQuoted(s, p + 1)
  }

  /** A string without a quote holds no quoted substring. */
  lemma NoQuoteNoMatch(s: string, p: nat)
    requires '"' !in s
    ensures FindQuoted(s, p).None?
  {
  }

  lemma {:induction false} QuotedBodyAppend(a: string, b: string)
    requires QuotedBody(a) && QuotedBody(b)
    ensures QuotedBody(a + b)
    decreases |a|
  {
    if a != [] {
      if a[0] == '\\' {
        assert |a| >= 2 && a[1] != '\n' && QuotedBody(a[2..]);
        QuotedBodyAppend(a[2..], b);
        assert (a + b)[2..] == a[2..] + b;
        assert (a + b)[0] == '\\' && (a + b)[1] == a[1];
      } else {
        QuotedBodyAppend(a[1..], b);
        assert (a + b)[1..] == a[1..] + b;
        assert (a + b)[0] == a[0];
      }
    } else {
      assert a + b == b;
    }
  }

  lemma EscapeCharIsQuotedBody(c: char)
    ensures QuotedBody(EscapeChar(c))
  {
    var e := EscapeChar(c);
    if !NeedsEscape(c) {
      assert e[1..] == [];
    } else if |e| == 2 {
      assert e[2..] == [];
    } else {
      var h := e[2..];
      assert h == ['0', '0', e[4], e[5]];
      assert h[1..][1..][1..][1..] == [];
      assert QuotedBody(h[1..][1..][1..]);
      assert QuotedBody(h[1..][1..]);
      assert QuotedBody(h[1..]);
      assert QuotedBody(h);
    }
  }

  lemma {:induction false} EscapeBodyIsQuotedBody(s: string)
    ensures QuotedBody(EscapeBody(s))
  {
    if s != [] {
      EscapeBodyIsQuotedBody(s[1..]);
      var e := EscapeChar(s[0]);
      EscapeCharIsQuotedBody(s[0]);
      QuotedBodyAppend(e, EscapeBody(s[1..]));
    }
  }

  /** The literal JsonQuote(s) is itself the leftmost quoted substring of any
      string it starts, and it decodes back to `s`. */
  lemma JsonQuoteMatches(s: string, rest: string)
    ensures var q := JsonQuote(s) + rest;
      FindQuoted(q, 0) == Some((0, (|JsonQuote(s)| - 1) as nat))
      && Decode(q[1..|JsonQuote(s)| - 1]) == Some(s)
  {
    var q := JsonQuote(s) + rest;
    var n := |JsonQuote(s)|;
    EscapeBodyIsQuotedBody(s);
    assert q[1..n - 1] == EscapeBody(s);
    ScanQuotedIff(q, 1, n - 1);
    assert QuotedAt(q, 0);
    DecodeEscapeBody(s);
  }
}
