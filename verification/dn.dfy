/** The distinguished name of the replica configuration entry a cleanup task is written to,
    and the backslash-hexpair escaping of section 2.4 of RFC 4514 that builds it. */
module Dn {
  import opened PyStr

  /** The replica entry's name up to the escaped base DN. */
  const TargetPrefix := "cn=replica,cn="

  /** The replica entry's name after the escaped base DN. */
  const TargetSuffix := ",cn=mapping tree,cn=config"

  /** How the code writes `=`: a backslash and the hex digits of its code, 0x3D. */
  const EscapedEquals := "\\3D"

  predicate IsHexDigit(ch: char) {
    ('0' <= ch <= '9') || ('A' <= ch <= 'F') || ('a' <= ch <= 'f')
  }

  /** The upper-case hex digit for `n`. */
  function HexDigit(n: nat): (ch: char)
    requires n < 16
    ensures IsHexDigit(ch)
  {
    if n < 10 then ('0' as int + n) as char else ('A' as int + n - 10) as char
  }

  function HexValue(ch: char): (v: nat)
    requires IsHexDigit(ch)
    ensures v < 16
    ensures forall n :: 0 <= n < 16 && ch == HexDigit(n) ==> v == n
  {
    if '0' <= ch <= '9' then ch as int - '0' as int
    else if 'A' <= ch <= 'F' then ch as int - 'A' as int + 10
    else ch as int - 'a' as int + 10
  }

  /** Section 2.4 of RFC 4514: a character written as a backslash followed by the two hex
      digits of its code. */
  function HexEscape(c: char): (e: string)
    requires c as int < 256
    ensures |e| == 3 && e[0] == '\\' && IsHexDigit(e[1]) && IsHexDigit(e[2])
  {
    ['\\', HexDigit(c as int / 16), HexDigit(c as int % 16)]
  }

  /** Decodes every backslash-hexpair escape of a DN value; every other character is kept. */
  function Unescape(s: string): string
    decreases |s|
  {
    if |s| == 0 then []
    else if |s| >= 3 && s[0] == '\\' && IsHexDigit(s[1]) && IsHexDigit(s[2]) then
      [(HexValue(s[1]) * 16 + HexValue(s[2])) as char] + Unescape(s[3..])
    else [s[0]] + Unescape(s[1..])
  }

  /** Decoding an escaped character gives the character back. */
  lemma UnescapeHexEscape(c: char, rest: string)
    requires c as int < 256
    ensures Unescape(HexEscape(c) + rest) == [c] + Unescape(rest)
  {
    var s := HexEscape(c) + rest;
    assert s[3..] == rest;
    assert HexValue(s[1]) == c as int / 16 && HexValue(s[2]) == c as int % 16;
  }

  /** A character other than a backslash is copied by the decoder. */
  lemma UnescapePlain(c: char, rest: string)
    requires c != '\\'
    ensures Unescape([c] + rest) == [c] + Unescape(rest)
  {
    assert ([c] + rest)[1..] == rest;
  }

  /** The code's `\3D` is the section 2.4 escape of `=`. */
  lemma EscapedEqualsIsHexEscape()
    ensures HexEscape('=') == EscapedEquals
  {
  }

  /** The base DN as the code escapes it: every `=` becomes `\3D`, nothing else changes. */
  function EscapeEquals(basedn: string): (e: string)
    ensures '=' !in e
    ensures |e| == |basedn| + 2 * Count(basedn, '=')
  {
    Replace(basedn, '=', EscapedEquals)
  }

  /** The escape loses nothing for a base DN without backslashes: decoding gives it back. */
  lemma {:induction false} EscapeEqualsRoundTrip(basedn: string)
    requires '\\' !in basedn
    ensures Unescape(EscapeEquals(basedn)) == basedn
    decreases |basedn|
  {
    if |basedn| > 0 {
      var c, rest := basedn[0], basedn[1..];
      assert '\\' !in rest by { assert forall k :: 0 <= k < |rest| ==> rest[k] == basedn[k + 1]; }
      EscapeEqualsRoundTrip(rest);
      if c == '=' {
        EscapedEqualsIsHexEscape();
        UnescapeHexEscape('=', EscapeEquals(rest));
      } else {
        UnescapePlain(c, EscapeEquals(rest));
      }
      assert basedn == [c] + rest;
    }
  }

  /** The replica configuration entry of the base DN, as the code names it. */
  function TargetDn(basedn: string): (dn: string)
    ensures IsPrefix(TargetPrefix, dn) && IsSuffix(TargetSuffix, dn)
    ensures |dn| == |TargetPrefix| + |basedn| + 2 * Count(basedn, '=') + |TargetSuffix|
    ensures '=' !in dn[|TargetPrefix|..|dn| - |TargetSuffix|]
  {
    var e := EscapeEquals(basedn);
    var dn := TargetPrefix + e + TargetSuffix;
    assert dn[..|TargetPrefix|] == TargetPrefix;
    assert dn[|dn| - |TargetSuffix|..] == TargetSuffix;
    assert dn[|TargetPrefix|..|dn| - |TargetSuffix|] == e;
    dn
  }

  /** Between the fixed prefix and suffix the target DN holds the base DN, recoverable by
      decoding the escapes. */
  lemma TargetDnRecoversBaseDn(basedn: string)
    requires '\\' !in basedn
    ensures var dn := TargetDn(basedn);
            Unescape(dn[|TargetPrefix|..|dn| - |TargetSuffix|]) == basedn
  {
    var dn := TargetDn(basedn);
    assert dn[|TargetPrefix|..|dn| - |TargetSuffix|] == EscapeEquals(basedn);
    EscapeEqualsRoundTrip(basedn);
  }

  /** Escaping a base DN with two `=` signs. */
  lemma EscapeTwoEquals(basedn: string, x: string, y: string, z: string)
    requires basedn == x + "=" + y + "=" + z
    requires '=' !in x && '=' !in y && '=' !in z
    ensures EscapeEquals(basedn) == x + EscapedEquals + y + EscapedEquals + z
  {
    ReplaceAppend(x + "=" + y + "=", z, '=', EscapedEquals);
    ReplaceAppend(x + "=" + y, "=", '=', EscapedEquals);
    ReplaceAppend(x + "=", y, '=', EscapedEquals);
    ReplaceAppend(x, "=", '=', EscapedEquals);
    ReplaceAbsent(x, '=', EscapedEquals);
    ReplaceAbsent(y, '=', EscapedEquals);
    ReplaceAbsent(z, '=', EscapedEquals);
    assert Replace("=", '=', EscapedEquals) == EscapedEquals;
  }

  /** `dc=example,dc=com` around its two `=` signs. */
  // The literal arrives as a parameter so the verifier does not unfold string functions on it.
  lemma ExampleParts(basedn: string)
    requires basedn == "dc=example,dc=com"
    ensures basedn == "dc" + "=" + "example,dc" + "=" + "com"
    ensures "example,dc" == "example" + [','] + "dc"
    ensures '=' !in "dc" && '=' !in "example,dc" && '=' !in "com"
  {
  }

  // The literal arrives as a parameter so the verifier does not unfold string functions on it.
  lemma ExampleEscapedText(e: string)
    requires e == "dc" + EscapedEquals + "example,dc" + EscapedEquals + "com"
    ensures e == "dc\\3Dexample,dc\\3Dcom"
  {
  }

  /** The code's target DN for the usual two-component suffix. */
  lemma TargetDnExample(basedn: string)
    requires basedn == "dc=example,dc=com"
    ensures TargetDn(basedn) == "cn=replica,cn=" + "dc\\3Dexample,dc\\3Dcom" + ",cn=mapping tree,cn=config"
  {
    ExampleParts(basedn);
    EscapeTwoEquals(basedn, "dc", "example,dc", "com");
    ExampleEscapedText(EscapeEquals(basedn));
  }

  /** Text the RDN scanner reads without meeting a separating comma and without leaving a
      backslash dangling at its end. */
  predicate NoSeparator(s: string)
    decreases |s|
  {
    if |s| == 0 then true
    else if s[0] == '\\' then |s| >= 2 && NoSeparator(s[2..])
    else s[0] != ',' && NoSeparator(s[1..])
  }

  /** The RDNs of a DN string: the pieces between the commas that no backslash escapes. */
  function Rdns(dn: string): (rdns: seq<string>)
    ensures |rdns| >= 1
    decreases |dn|
  {
    if |dn| == 0 then [""]
    else if dn[0] == ',' then [""] + Rdns(dn[1..])
    else
      var n := if dn[0] == '\\' && |dn| >= 2 then 2 else 1;
      var rest := Rdns(dn[n..]);
      [dn[..n] + rest[0]] + rest[1..]
  }

  lemma {:induction false} NoSeparatorPlain(s: string)
    requires ',' !in s && '\\' !in s
    ensures NoSeparator(s)
    decreases |s|
  {
    if |s| > 0 {
      assert ',' !in s[1..] && '\\' !in s[1..] by {
        assert forall k :: 0 <= k < |s[1..]| ==> s[1..][k] == s[k + 1];
      }
      NoSeparatorPlain(s[1..]);
    }
  }

  lemma {:induction false} NoSeparatorConcat(a: string, b: string)
    requires NoSeparator(a) && NoSeparator(b)
    ensures NoSeparator(a + b)
    decreases |a|
  {
    if |a| > 0 {
      var n := if a[0] == '\\' then 2 else 1;
      assert (a + b)[n..] == a[n..] + b;
      NoSeparatorConcat(a[n..], b);
    } else {
      assert a + b == b;
    }
  }

  lemma HexEscapeNoSeparator(c: char)
    requires c as int < 256
    ensures NoSeparator(HexEscape(c))
  {
    var e := HexEscape(c);
    assert e[2..] == [e[2]];
    assert e[2..][1..] == [];
  }

  /** Text without a separating comma is a single RDN. */
  lemma {:induction false} RdnsSingle(a: string)
    requires NoSeparator(a)
    ensures Rdns(a) == [a]
    decreases |a|
  {
    if |a| > 0 {
      var n := if a[0] == '\\' then 2 else 1;
      RdnsSingle(a[n..]);
      assert a[..n] + a[n..] == a;
    }
  }

  /** Text without a separating comma, then a comma, is split off as the first RDN. */
  lemma {:induction false} RdnsAfter(a: string, b: string)
    requires NoSeparator(a)
    ensures Rdns(a + [','] + b) == [a] + Rdns(b)
    decreases |a|
  {
    var s := a + [','] + b;
    if |a| == 0 {
      assert s[1..] == b;
    } else {
      var n := if a[0] == '\\' then 2 else 1;
      assert s[n..] == a[n..] + [','] + b;
      assert s[..n] == a[..n];
      RdnsAfter(a[n..], b);
      assert a[..n] + a[n..] == a;
    }
  }

  /** The fixed RDNs of the target DN hold no separator. */
  // The literal arrives as a parameter so the verifier does not unfold string functions on it.
  lemma FixedRdnsNoSeparator(replica: string, tree: string, config: string)
    requires replica == "cn=replica" && tree == "cn=mapping tree" && config == "cn=config"
    ensures NoSeparator(replica) && NoSeparator(tree) && NoSeparator(config)
  {
    assert ',' !in replica && '\\' !in replica;
    NoSeparatorPlain(replica);
    assert ',' !in tree && '\\' !in tree;
    NoSeparatorPlain(tree);
    assert ',' !in config && '\\' !in config;
    NoSeparatorPlain(config);
  }

  /** Four separator-free pieces joined by commas are four RDNs. */
  lemma {:induction false} RdnsOfFour(p: string, q: string, r: string, t: string)
    requires NoSeparator(p) && NoSeparator(q) && NoSeparator(r) && NoSeparator(t)
    ensures Rdns(p + [','] + (q + [','] + (r + [','] + t))) == [p, q, r, t]
  {
    RdnsSingle(t);
    RdnsAfter(r, t);
    RdnsAfter(q, r + [','] + t);
    RdnsAfter(p, q + [','] + (r + [','] + t));
  }

  /** Five separator-free pieces joined by commas are five RDNs. */
  lemma {:induction false} RdnsOfFive(p: string, q: string, r: string, t: string, u: string)
    requires NoSeparator(p) && NoSeparator(q) && NoSeparator(r) && NoSeparator(t) && NoSeparator(u)
    ensures Rdns(p + [','] + (q + [','] + (r + [','] + (t + [','] + u)))) == [p, q, r, t, u]
  {
    RdnsOfFour(q, r, t, u);
    RdnsAfter(p, q + [','] + (r + [','] + (t + [','] + u)));
  }

  /** The target DN split around its fixed RDNs. */
  lemma TargetParts(value: string)
    ensures TargetPrefix + value + TargetSuffix
         == "cn=replica" + [','] + (("cn=" + value) + [','] + ("cn=mapping tree" + [','] + "cn=config"))
  {
    assert TargetPrefix == "cn=replica" + [','] + "cn=";
    assert TargetSuffix == [','] + ("cn=mapping tree" + [','] + "cn=config");
  }

  /** The fixed parts of the target DN are the RDNs `cn=replica` and `cn=<value>` before the
      value, and `cn=mapping tree` and `cn=config` after it. */
  lemma RdnsOfTarget(value: string)
    requires NoSeparator("cn=" + value)
    ensures Rdns(TargetPrefix + value + TargetSuffix) == ["cn=replica", "cn=" + value, "cn=mapping tree", "cn=config"]
  {
    FixedRdnsNoSeparator("cn=replica", "cn=mapping tree", "cn=config");
    RdnsOfFour("cn=replica", "cn=" + value, "cn=mapping tree", "cn=config");
    TargetParts(value);
  }

  /** A value with a separating comma adds an RDN to the target DN. */
  lemma RdnsOfTargetWithComma(first: string, second: string)
    requires NoSeparator("cn=" + first) && NoSeparator(second)
    ensures Rdns(TargetPrefix + (first + [','] + second) + TargetSuffix)
         == ["cn=replica", "cn=" + first, second, "cn=mapping tree", "cn=config"]
  {
    FixedRdnsNoSeparator("cn=replica", "cn=mapping tree", "cn=config");
    RdnsOfFive("cn=replica", "cn=" + first, second, "cn=mapping tree", "cn=config");
    TargetParts(first + [','] + second);
    Regroup("cn=", first, second, "cn=mapping tree" + [','] + "cn=config");
  }

  // Regrouping a concatenation on its own keeps the callers' proof obligations small.
  lemma Regroup(a: string, x: string, y: string, tail: string)
    ensures (a + (x + [','] + y)) + [','] + tail == (a + x) + [','] + (y + [','] + tail)
  {
  }

  /** Plain text around one escaped `=` holds no separator. */
  lemma EscapedEqualsNoSeparator(x: string, y: string)
    requires ',' !in x && '\\' !in x && ',' !in y && '\\' !in y
    ensures NoSeparator(x + EscapedEquals + y)
  {
    EscapedEqualsIsHexEscape();
    HexEscapeNoSeparator('=');
    NoSeparatorPlain(x);
    NoSeparatorPlain(y);
    NoSeparatorConcat(EscapedEquals, y);
    NoSeparatorConcat(x, EscapedEquals + y);
    assert x + (EscapedEquals + y) == x + EscapedEquals + y;
  }

  // Regrouping a concatenation on its own keeps the callers' proof obligations small.
  lemma RegroupTwoEquals(x1: string, x2: string, y: string, z: string)
    ensures x1 + EscapedEquals + (x2 + [','] + y) + EscapedEquals + z
         == (x1 + EscapedEquals + x2) + [','] + (y + EscapedEquals + z)
  {
  }

  /** A value with no comma, `=` or backslash. */
  predicate PlainValue(x: string) {
    ',' !in x && '=' !in x && '\\' !in x
  }

  /** The code's target DN for any two-component base DN `dc=<x>,dc=<y>`. */
  lemma TargetDnOfTwoComponents(basedn: string, x: string, y: string)
    requires basedn == "dc=" + x + ",dc=" + y
    requires PlainValue(x) && PlainValue(y)
    ensures TargetDn(basedn) == TargetPrefix + ("dc" + EscapedEquals + x) + [','] + ("dc" + EscapedEquals + y) + TargetSuffix
  {
    var mid := x + [','] + "dc";
    assert basedn == "dc" + "=" + mid + "=" + y;
    assert '=' !in "dc" && '=' !in mid;
    EscapeTwoEquals(basedn, "dc", mid, y);
    RegroupTwoEquals("dc", x, "dc", y);
  }

  /** For every two-component base DN `dc=<x>,dc=<y>` the code's target DN has five RDNs, and
      the third, `dc\3D<y>`, has no attribute type: the comma of the base DN was left
      unescaped. */
  lemma TargetDnSplitsBaseDn(basedn: string, x: string, y: string)
    requires basedn == "dc=" + x + ",dc=" + y
    requires PlainValue(x) && PlainValue(y)
    ensures var rdns := Rdns(TargetDn(basedn));
            rdns == ["cn=replica", "cn=dc" + EscapedEquals + x, "dc" + EscapedEquals + y, "cn=mapping tree", "cn=config"]
            && '=' !in rdns[2]
  {
    TargetDnOfTwoComponents(basedn, x, y);
    var first, second := "dc" + EscapedEquals + x, "dc" + EscapedEquals + y;
    TwoComponentHalves(x, y);
    RdnsOfTargetWithComma(first, second);
    Reassociate(TargetPrefix, first, second, TargetSuffix);
  }

  /** The two values the escaped two-component base DN falls apart into hold no separator,
      and the second holds no `=`. */
  lemma TwoComponentHalves(x: string, y: string)
    requires PlainValue(x) && PlainValue(y)
    ensures "cn=" + ("dc" + EscapedEquals + x) == "cn=dc" + EscapedEquals + x
    ensures NoSeparator("cn=dc" + EscapedEquals + x) && NoSeparator("dc" + EscapedEquals + y)
    ensures '=' !in "dc" + EscapedEquals + y
  {
    EscapedEqualsNoSeparator("cn=dc", x);
    EscapedEqualsNoSeparator("dc", y);
    assert '=' !in "dc" && '=' !in EscapedEquals;
  }

  // Regrouping a concatenation on its own keeps the callers' proof obligations small.
  lemma Reassociate(p: string, a: string, b: string, q: string)
    ensures p + a + [','] + b + q == p + (a + [','] + b) + q
  {
  }

  /** In particular `dc=example,dc=com` gives a target DN of five RDNs, the third without
      attribute type. */
  lemma TargetDnSplitsExampleBaseDn(basedn: string)
    requires basedn == "dc=example,dc=com"
    ensures |Rdns(TargetDn(basedn))| == 5 && '=' !in Rdns(TargetDn(basedn))[2]
  {
    assert basedn == "dc=" + "example" + ",dc=" + "com";
    assert PlainValue("example") && PlainValue("com");
    TargetDnSplitsBaseDn(basedn, "example", "com");
  }

  /** Characters section 2.4 of RFC 4514 requires escaping wherever they occur in a value
      (`"`, `+`, `,`, `;`, `<`, `>`, `\` and the null character), plus `=`, which the code
      escapes too. */
  predicate MustEscape(c: char) {
    c in "\"+,;<>\\=\0"
  }

  /** A base DN escaped as one RDN value: every character that must be escaped becomes its
      backslash-hexpair form. */
  function EscapeValue(v: string): (e: string)
    ensures ',' !in e && '=' !in e
    decreases |v|
  {
    if |v| == 0 then []
    else (if MustEscape(v[0]) then HexEscape(v[0]) else [v[0]]) + EscapeValue(v[1..])
  }

  /** Decoding the escaped value gives the base DN back, for every base DN. */
  lemma {:induction false} EscapeValueRoundTrip(v: string)
    ensures Unescape(EscapeValue(v)) == v
    decreases |v|
  {
    if |v| > 0 {
      EscapeValueRoundTrip(v[1..]);
      if MustEscape(v[0]) {
        UnescapeHexEscape(v[0], EscapeValue(v[1..]));
      } else {
        UnescapePlain(v[0], EscapeValue(v[1..]));
      }
      assert v == [v[0]] + v[1..];
    }
  }

  /** The escaped value never splits into several RDNs. */
  lemma {:induction false} EscapeValueNoSeparator(v: string)
    ensures NoSeparator(EscapeValue(v))
    decreases |v|
  {
    if |v| > 0 {
      EscapeValueNoSeparator(v[1..]);
      if MustEscape(v[0]) {
        HexEscapeNoSeparator(v[0]);
        NoSeparatorConcat(HexEscape(v[0]), EscapeValue(v[1..]));
      } else {
        NoSeparatorPlain([v[0]]);
        NoSeparatorConcat([v[0]], EscapeValue(v[1..]));
      }
    }
  }

  /** The replica configuration entry with the base DN escaped as a single RDN value. */
  function TargetDnRfc4514(basedn: string): (dn: string)
    ensures Rdns(dn) == ["cn=replica", "cn=" + EscapeValue(basedn), "cn=mapping tree", "cn=config"]
  {
    var e := EscapeValue(basedn);
    NoSeparatorPlain("cn=");
    EscapeValueNoSeparator(basedn);
    NoSeparatorConcat("cn=", e);
    RdnsOfTarget(e);
    TargetPrefix + e + TargetSuffix
  }

  /** The value of the second RDN of the corrected target DN decodes to the base DN. */
  lemma TargetDnRfc4514RecoversBaseDn(basedn: string)
    ensures var rdn := Rdns(TargetDnRfc4514(basedn))[1];
            |rdn| >= 3 && Unescape(rdn[3..]) == basedn
  {
    var e := EscapeValue(basedn);
    assert ("cn=" + e)[3..] == e;
    EscapeValueRoundTrip(basedn);
  }
}
