// url_unescape and ParseQueryParams of the HTTP handler. A query is a C
// string; a pointer into it is the text from there on.

module QueryString {
  import opened CStrings

  // ---- percent-encoding: section 2.1 of RFC 3986 ----

  predicate IsHex(c: char) { '0' <= c <= '9' || 'a' <= c <= 'f' || 'A' <= c <= 'F' }

  function Hex2i(c: char): (d: nat)
    ensures d < 16
  {
    if '0' <= c <= '9' then (c - '0') as nat
    else if 'a' <= c <= 'f' then (c - 'a') as nat + 10
    else if 'A' <= c <= 'F' then (c - 'A') as nat + 10
    else 0
  }

  predicate StartsEscape(s: string) {
    |s| >= 3 && s[0] == '%' && IsHex(s[1]) && IsHex(s[2])
  }

  /** url_unescape; a '%' that starts no escape stays. */
  function Unescape(s: string): string {
    if s == "" then ""
    else if StartsEscape(s) then [(16 * Hex2i(s[1]) + Hex2i(s[2])) as char] + Unescape(s[3..])
    else [s[0]] + Unescape(s[1..])
  }

  method UrlUnescape(istr: string) returns (ostr: string)
    ensures ostr == Unescape(istr)
  {
    ostr := "";
    var p := 0;
    assert istr[0..] == istr && "" + Unescape(istr) == Unescape(istr);
    while p < |istr|
      invariant p <= |istr| && ostr + Unescape(istr[p..]) == Unescape(istr)
      decreases |istr| - p
    {
      ghost var rest := istr[p..];
      if istr[p] == '%' && p + 2 < |istr| && IsHex(istr[p + 1]) && IsHex(istr[p + 2]) {
        var c := (16 * Hex2i(istr[p + 1]) + Hex2i(istr[p + 2])) as char;
        UnescapeTaken(istr, p, ostr);
        ostr := ostr + [c];
        p := p + 3;
      } else {
        UnescapeTaken(istr, p, ostr);
        ostr := ostr + [istr[p]];
        p := p + 1;
      }
    }
    assert istr[p..] == "" && ostr + "" == ostr;
  }

  lemma UnescapeTaken(s: string, p: nat, done: string)
    requires p < |s|
    ensures if s[p] == '%' && p + 2 < |s| && IsHex(s[p + 1]) && IsHex(s[p + 2]) then
              done + Unescape(s[p..]) == done + [(16 * Hex2i(s[p + 1]) + Hex2i(s[p + 2])) as char] + Unescape(s[p + 3..])
            else done + Unescape(s[p..]) == done + [s[p]] + Unescape(s[p + 1..])
  {
    var t := s[p..];
    assert t[0] == s[p] && t[1..] == s[p + 1..];
    if |t| >= 3 {
      assert t[1] == s[p + 1] && t[2] == s[p + 2] && t[3..] == s[p + 3..];
    }
  }

  function HexDigit(d: nat): (c: char)
    requires d < 16
    ensures IsHex(c) && Hex2i(c) == d
  {
    if d < 10 then '0' + d as char else 'A' + (d - 10) as char
  }

  /** Section 2.3 of RFC 3986. */
  predicate Unreserved(c: char) {
    'a' <= c <= 'z' || 'A' <= c <= 'Z' || '0' <= c <= '9' || c == '-' || c == '.' || c == '_' || c == '~'
  }

  function EscapeByte(c: char): string
    requires c as int < 256
  {
    if Unreserved(c) then [c] else ['%', HexDigit(c as int / 16), HexDigit(c as int % 16)]
  }

  predicate Bytes(s: string) {
    forall k :: 0 <= k < |s| ==> s[k] as int < 256
  }

  function PercentEncode(s: string): (r: string)
    requires Bytes(s)
    ensures |r| >= |s| && Plain(r)
  {
    if s == "" then "" else EscapeByte(s[0]) + PercentEncode(s[1..])
  }

  /** Without the characters that structure a query. */
  predicate Plain(s: string) {
    forall k :: 0 <= k < |s| ==> s[k] != '&' && s[k] != '=' && s[k] != '?' && s[k] != NUL
  }

  lemma UnescapeByte(c: char, rest: string)
    requires c as int < 256
    ensures Unescape(EscapeByte(c) + rest) == [c] + Unescape(rest)
  {
    var e := EscapeByte(c);
    var t := e + rest;
    if Unreserved(c) {
      assert t[1..] == rest;
    } else {
      assert t[0] == '%' && t[1] == e[1] && t[2] == e[2] && t[3..] == rest;
    }
  }

  lemma {:induction false} UnescapeEncodedThen(s: string, rest: string)
    requires Bytes(s)
    ensures Unescape(PercentEncode(s) + rest) == s + Unescape(rest)
  {
    hide Unescape, EscapeByte, Plain;
    if s == "" {
      assert PercentEncode(s) + rest == rest && s + Unescape(rest) == Unescape(rest);
    } else {
      var tail := PercentEncode(s[1..]) + rest;
      assert PercentEncode(s) + rest == EscapeByte(s[0]) + tail;
      UnescapeByte(s[0], tail);
      UnescapeEncodedThen(s[1..], rest);
      assert s + Unescape(rest) == [s[0]] + (s[1..] + Unescape(rest));
    }
  }

  /** Every byte string is read back. */
  lemma {:induction false} UnescapeEncoded(s: string)
    requires Bytes(s)
    ensures Unescape(PercentEncode(s)) == s
  {
    hide PercentEncode;
    UnescapeEncodedThen(s, "");
    assert PercentEncode(s) + "" == PercentEncode(s) && s + "" == s;
  }

  lemma UnescapeNonEmpty(s: string)
    ensures Unescape(s) == "" <==> s == ""
  {
  }

  // ---- ParseQueryParams ----

  datatype Pair = Pair(key: string, value: string)

  type Params = map<string, string>

  /** The pairs entered one after the other; a later duplicate wins. */
  function Entries(pairs: seq<Pair>, params: Params): Params
    decreases |pairs|
  {
    if pairs == [] then params else Entries(pairs[1..], params[pairs[0].key := pairs[0].value])
  }

  /** The loop variables: the two pointers, as the text from there on, and the two lengths. */
  datatype Cursor = Cursor(inValue: bool, key: string, keyLength: nat, value: string, valueLength: nat) {
    predicate Complete() {
      keyLength > 0 && valueLength > 0
    }

    /** Neither std::string copies more characters than the query still has. */
    predicate Within() {
      keyLength <= |key| && valueLength <= |value|
    }

    /** The entry stored at an '&' or at the end. */
    function Stored(): Pair {
      Pair(Unescape(Copied(key, keyLength)), Unescape(Copied(value, valueLength)))
    }

    /** At the start of the pair that begins at p. */
    function Restart(p: string): Cursor {
      if Complete() then Cursor(false, p, 0, value, 0) else Cursor(false, p, keyLength, value, valueLength)
    }
  }

  /** std::string(p, n) as c_str() shows it: the copy ends for its reader at the end of the query. */
  function Copied(p: string, n: nat): string {
    if n <= |p| then p[..n] else p
  }

  /** The loop from p on: the cursors at which an entry is stored, in order. */
  function Scan(p: string, c: Cursor): seq<Cursor> {
    if p == "" then (if c.Complete() then [c] else [])
    else if p[0] == '&' then (if c.Complete() then [c] else []) + Scan(p[1..], c.Restart(p[1..]))
    else if p[0] == '=' then Scan(p[1..], c.(inValue := true, value := p[1..]))
    else if c.inValue then Scan(p[1..], c.(valueLength := c.valueLength + 1))
    else Scan(p[1..], c.(keyLength := c.keyLength + 1))
  }

  function StoredPairs(stores: seq<Cursor>): (pairs: seq<Pair>)
    ensures |pairs| == |stores|
  {
    if stores == [] then [] else [stores[0].Stored()] + StoredPairs(stores[1..])
  }

  /** What follows the first '?', or everything. */
  function AfterQuestion(s: string): string {
    if '?' in s then TailAfter(s) else s
  }

  function TailAfter(s: string): string
    requires '?' in s
  {
    if s[0] == '?' then s[1..] else TailAfter(s[1..])
  }

  /** The stores that a query causes. */
  function Stores(s: string): seq<Cursor> {
    Scan(AfterQuestion(s), Cursor(false, AfterQuestion(s), 0, "", 0))
  }

  function Query(s: string, params: Params): Params {
    Entries(StoredPairs(Stores(s)), params)
  }

  class HttpHandle {
    var params: Params

    constructor ()
      ensures params == map[]
    {
      params := map[];
    }

    method ParseQueryParams(query: string) returns (result: int)
      modifies this
      ensures params == Query(query, old(params))
      ensures result == if |params| == 0 then -1 else 0
    {
      hide Scan, Unescape, AfterQuestion, Entries, StoredPairs, Cursor.Stored, Cursor.Restart;
      var p := AfterQuestionIndex(query);
      var inValue := false;
      var key: nat := p;
      var value: Option<nat> := None;
      var keyLength, valueLength := 0, 0;
      ghost var end := Query(query, params);
      while p < |query|
        invariant key <= p <= |query| && (value.Some? ==> value.value <= |query|)
        invariant (valueLength > 0 ==> value.Some?) && (inValue ==> value.Some?)
        invariant var c := Cursor(inValue, query[key..], keyLength, ValueText(query, value), valueLength);
                  Entries(StoredPairs(Scan(query[p..], c)), params) == end
        decreases |query| - p
      {
        ghost var c := Cursor(inValue, query[key..], keyLength, ValueText(query, value), valueLength);
        ScanStep(query, p, c, params);
        if query[p] == '&' {
          RestartAt(c, query[p + 1..]);
          if keyLength > 0 && valueLength > 0 {
            StorePair(Cursor(inValue, query[key..], keyLength, query[value.value..], valueLength));
            keyLength, valueLength := 0, 0;
          }
          inValue := false;
          key := p + 1;
        } else if query[p] == '=' {
          inValue := true;
          value := Some(p + 1);
        } else if inValue {
          valueLength := valueLength + 1;
        } else {
          keyLength := keyLength + 1;
        }
        p := p + 1;
      }
      assert query[p..] == "";
      ScanEnd(Cursor(inValue, query[key..], keyLength, ValueText(query, value), valueLength), params);
      if keyLength > 0 && valueLength > 0 {
        StorePair(Cursor(inValue, query[key..], keyLength, query[value.value..], valueLength));
      }
      return if |params| == 0 then -1 else 0;
    }

    method StorePair(c: Cursor)
      modifies this
      ensures params == Enter(c, old(params))
    {
      var k := UrlUnescape(Copied(c.key, c.keyLength));
      var v := UrlUnescape(Copied(c.value, c.valueLength));
      params := params[k := v];
    }

    /** strchr and the step past it. */
    method AfterQuestionIndex(query: string) returns (p: nat)
      ensures p <= |query| && query[p..] == AfterQuestion(query)
    {
      var i := 0;
      assert query[0..] == query;
      while i < |query| && query[i] != '?'
        invariant i <= |query| && forall k :: 0 <= k < i ==> query[k] != '?'
        invariant '?' in query ==> '?' in query[i..] && TailAfter(query[i..]) == TailAfter(query)
      {
        assert query[i..][0] == query[i] && query[i..][1..] == query[i + 1..];
        i := i + 1;
      }
      if i < |query| {
        assert query[i..][0] == '?' && query[i..][1..] == query[i + 1..];
        return i + 1;
      }
      return 0;
    }
  }

  /** The text at the value pointer; the null pointer is never read. */
  ghost function ValueText(query: string, value: Option<nat>): string {
    if value.Some? && value.value <= |query| then query[value.value..] else ""
  }

  /** One entry. */
  function Enter(c: Cursor, params: Params): Params {
    params[c.Stored().key := c.Stored().value]
  }

  lemma EntriesFirst(c: Cursor, stores: seq<Cursor>, params: Params)
    ensures Entries(StoredPairs([c] + stores), params) == Entries(StoredPairs(stores), Enter(c, params))
  {
    assert ([c] + stores)[1..] == stores;
    var pairs := StoredPairs([c] + stores);
    assert pairs[1..] == StoredPairs(stores);
  }

  lemma RestartAt(c: Cursor, p: string)
    ensures c.Restart(p) == if c.Complete() then Cursor(false, p, 0, c.value, 0)
                            else Cursor(false, p, c.keyLength, c.value, c.valueLength)
  {
  }

  lemma ScanStep(query: string, p: nat, c: Cursor, params: Params)
    requires p < |query|
    ensures var next := query[p + 1..];
            Entries(StoredPairs(Scan(query[p..], c)), params)
            == if query[p] == '&' then
                 Entries(StoredPairs(Scan(next, c.Restart(next))), if c.Complete() then Enter(c, params) else params)
               else if query[p] == '=' then Entries(StoredPairs(Scan(next, c.(inValue := true, value := next))), params)
               else if c.inValue then Entries(StoredPairs(Scan(next, c.(valueLength := c.valueLength + 1))), params)
               else Entries(StoredPairs(Scan(next, c.(keyLength := c.keyLength + 1))), params)
  {
    hide Enter, Entries, StoredPairs, Cursor.Restart, Cursor.Stored;
    var next := query[p + 1..];
    assert query[p..][0] == query[p] && query[p..][1..] == next;
    if query[p] == '&' {
      var rest := Scan(next, c.Restart(next));
      EntriesFirst(c, rest, params);
      assert [] + rest == rest;
    }
  }

  lemma ScanEnd(c: Cursor, params: Params)
    ensures Entries(StoredPairs(Scan("", c)), params) == if c.Complete() then Enter(c, params) else params
  {
    hide Enter, Cursor.Stored;
    EntriesFirst(c, [], params);
    assert [c] + [] == [c];
  }

  // ---- lists of pairs ----

  predicate Encodable(pairs: seq<Pair>) {
    forall i :: 0 <= i < |pairs| ==> Bytes(pairs[i].key) && Bytes(pairs[i].value)
  }

  /** The query of a list of pairs. */
  function Join(pairs: seq<Pair>): string
    requires Encodable(pairs)
    decreases |pairs|
  {
    if pairs == [] then ""
    else PercentEncode(pairs[0].key) + ("=" + (PercentEncode(pairs[0].value) + JoinRest(pairs)))
  }

  /** What follows the first pair. */
  function JoinRest(pairs: seq<Pair>): string
    requires Encodable(pairs) && pairs != []
    decreases |pairs|, 0
  {
    if |pairs| == 1 then "" else "&" + Join(pairs[1..])
  }

  predicate Full(p: Pair) { p.key != "" && p.value != "" }
  predicate KeyOnly(p: Pair) { p.key != "" && p.value == "" }
  predicate ValueOnly(p: Pair) { p.key == "" && p.value != "" }

  /** The pairs with a key and a value. */
  function FullPairs(pairs: seq<Pair>): (r: seq<Pair>)
    ensures |r| <= |pairs|
  {
    if pairs == [] then [] else (if Full(pairs[0]) then [pairs[0]] else []) + FullPairs(pairs[1..])
  }

  /** Where the scan of a joined list starts, with the lengths left over from earlier pairs. */
  function Start(p: string, keyLength: nat, value: string, valueLength: nat): Cursor {
    Cursor(false, p, keyLength, value, valueLength)
  }

  lemma {:induction false} ScanPlain(s: string, rest: string, c: Cursor)
    requires Plain(s)
    ensures Scan(s + rest, c)
            == if c.inValue then Scan(rest, c.(valueLength := c.valueLength + |s|))
               else Scan(rest, c.(keyLength := c.keyLength + |s|))
  {
    hide Cursor.Restart;
    if s == "" {
      assert s + rest == rest;
    } else {
      assert (s + rest)[1..] == s[1..] + rest;
      if c.inValue {
        ScanPlain(s[1..], rest, c.(valueLength := c.valueLength + 1));
      } else {
        ScanPlain(s[1..], rest, c.(keyLength := c.keyLength + 1));
      }
    }
  }

  /** Where the scan stands after a joined pair with encoded key a and value b. */
  function AfterPair(a: string, b: string, rest: string, m: nat, n: nat): Cursor {
    Cursor(true, a + ("=" + (b + rest)), m + |a|, b + rest, n + |b|)
  }

  lemma ScanPair(a: string, b: string, rest: string, m: nat, value: string, n: nat)
    requires Plain(a) && Plain(b) && (rest == "" || rest[0] == '&')
    ensures var p := a + ("=" + (b + rest));
            var c := AfterPair(a, b, rest, m, n);
            Scan(p, Start(p, m, value, n))
            == (if c.Complete() then [c] else []) + (if rest == "" then [] else Scan(rest[1..], c.Restart(rest[1..])))
  {
    var atValue := b + rest;
    var p := a + ("=" + atValue);
    var c := AfterPair(a, b, rest, m, n);
    hide Plain, Cursor.Restart;
    ScanPlain(a, "=" + atValue, Start(p, m, value, n));
    assert ("=" + atValue)[1..] == atValue;
    ScanPlain(b, rest, Cursor(true, p, m + |a|, atValue, n));
  }

  /** The first pair of a list and the scan of the others. */
  lemma ScanFirst(pairs: seq<Pair>, m: nat, value: string, n: nat)
    requires Encodable(pairs) && pairs != []
    ensures var a, b, tail := PercentEncode(pairs[0].key), PercentEncode(pairs[0].value), pairs[1..];
            var c := AfterPair(a, b, JoinRest(pairs), m, n);
            && (c.Complete() <==> m + |pairs[0].key| > 0 && n + |pairs[0].value| > 0)
            && Scan(Join(pairs), Start(Join(pairs), m, value, n))
               == (if c.Complete() then [c] else [])
                  + (if tail == [] then [] else Scan(Join(tail), c.Restart(Join(tail))))
  {
    hide Scan, Plain, Cursor.Restart;
    var a, b := PercentEncode(pairs[0].key), PercentEncode(pairs[0].value);
    EncodeLength(pairs[0].key);
    EncodeLength(pairs[0].value);
    hide PercentEncode;
    ScanPair(a, b, JoinRest(pairs), m, value, n);
    if |pairs| > 1 {
      assert JoinRest(pairs)[1..] == Join(pairs[1..]);
    }
  }

  lemma EncodeLength(s: string)
    requires Bytes(s)
    ensures |PercentEncode(s)| == 0 <==> s == ""
    ensures Plain(PercentEncode(s))
  {
  }

  lemma {:induction false} JoinedPlain(pairs: seq<Pair>)
    requires Encodable(pairs)
    ensures '?' !in Join(pairs) && NUL !in Join(pairs)
    decreases |pairs|
  {
    if pairs != [] {
      var a, b := PercentEncode(pairs[0].key), PercentEncode(pairs[0].value);
      hide PercentEncode;
      EncodeLength(pairs[0].key);
      EncodeLength(pairs[0].value);
      PlainText(a);
      PlainText(b);
      hide Plain;
      if |pairs| > 1 {
        JoinedPlain(pairs[1..]);
      }
      assert Join(pairs) == a + ("=" + (b + JoinRest(pairs)));
    }
  }

  lemma PlainText(s: string)
    requires Plain(s)
    ensures '?' !in s && NUL !in s
  {
  }

  lemma {:induction false} TailOf(prefix: string, query: string)
    requires '?' !in prefix
    ensures '?' in prefix + ("?" + query) && TailAfter(prefix + ("?" + query)) == query
  {
    var s := prefix + ("?" + query);
    assert s[|prefix|] == '?';
    if prefix == "" {
      assert s[1..] == query;
    } else {
      assert s[1..] == prefix[1..] + ("?" + query);
      TailOf(prefix[1..], query);
    }
  }

  /** A joined list is scanned alone or after a path and '?'. */
  lemma StoresOfJoined(pairs: seq<Pair>, path: string)
    requires Encodable(pairs) && '?' !in path
    ensures Stores(Join(pairs)) == Scan(Join(pairs), Start(Join(pairs), 0, "", 0))
    ensures Stores(path + ("?" + Join(pairs))) == Stores(Join(pairs))
  {
    hide Join, Scan;
    JoinedPlain(pairs);
    TailOf(path, Join(pairs));
  }

  // ---- exactly when the stores are the pairs ----

  /**
   * No stray length spoils a store: m and n tell whether the length of an
   * earlier key without value, or of an earlier value without key, is pending.
   */
  predicate Clean(pairs: seq<Pair>, m: bool, n: bool)
    decreases |pairs|
  {
    pairs == [] ||
    if Full(pairs[0]) then !m && (!n || |pairs| == 1) && Clean(pairs[1..], false, false)
    else if KeyOnly(pairs[0]) then !n && Clean(pairs[1..], true, false)
    else if ValueOnly(pairs[0]) then !m && Clean(pairs[1..], false, true)
    else Clean(pairs[1..], m, n)
  }

  lemma FirstStore(k: string, v: string, rest: string, m: nat, n: nat)
    requires Bytes(k) && Bytes(v) && k != "" && v != "" && (rest == "" || rest[0] == '&')
    ensures AfterPair(PercentEncode(k), PercentEncode(v), rest, m, n).Stored() == Pair(k, v)
            <==> m == 0 && (n == 0 || rest == "")
  {
    hide Unescape, PercentEncode, Plain, Copied, Bytes;
    var a, b := PercentEncode(k), PercentEncode(v);
    CopiedSpoilt(k, "=" + (b + rest), m);
    CopiedSpoilt(v, rest, n);
  }

  /** A copy that takes m characters too many shows more than the string, if there is more. */
  lemma CopiedSpoilt(s: string, rest: string, m: nat)
    requires Bytes(s)
    ensures Unescape(Copied(PercentEncode(s) + rest, m + |PercentEncode(s)|)) == s <==> m == 0 || rest == ""
  {
    hide Unescape, PercentEncode;
    var e := PercentEncode(s);
    var more := Copied(rest, m);
    assert Copied(e + rest, m + |e|) == e + more;
    UnescapeEncodedThen(s, more);
    UnescapeNonEmpty(more);
    assert Unescape(more) != "" ==> |s + Unescape(more)| > |s|;
    assert s + "" == s;
  }

  lemma {:induction false} StoredCount(pairs: seq<Pair>, m: nat, value: string, n: nat)
    requires Encodable(pairs) && !(m > 0 && n > 0)
    ensures |Scan(Join(pairs), Start(Join(pairs), m, value, n))| >= |FullPairs(pairs)|
    decreases |pairs|
  {
    hide Scan, PercentEncode, Join, JoinRest;
    if pairs == [] {
    } else {
      ScanFirst(pairs, m, value, n);
      var a, b := PercentEncode(pairs[0].key), PercentEncode(pairs[0].value);
      var c := AfterPair(a, b, JoinRest(pairs), m, n);
      var s := c.Restart(Join(pairs[1..]));
      StoredCount(pairs[1..], s.keyLength, s.value, s.valueLength);
    }
  }

  lemma StoredPairsOf(head: seq<Cursor>, tail: seq<Cursor>)
    requires |head| <= 1
    ensures StoredPairs(head + tail) == StoredPairs(head) + StoredPairs(tail)
    ensures head != [] ==> StoredPairs(head) == [head[0].Stored()]
  {
    hide Cursor.Stored;
    if head == [] {
      assert head + tail == tail;
    } else {
      assert (head + tail)[1..] == tail && head[1..] == [];
    }
  }

  lemma {:induction false} StoresMatch(pairs: seq<Pair>, m: nat, value: string, n: nat)
    requires Encodable(pairs) && !(m > 0 && n > 0)
    ensures StoredPairs(Scan(Join(pairs), Start(Join(pairs), m, value, n))) == FullPairs(pairs)
            <==> Clean(pairs, m > 0, n > 0)
    decreases |pairs|
  {
    hide PercentEncode, Join, JoinRest, StoredPairs, Cursor.Stored;
    if pairs == [] {
      NothingStored(m, value, n);
    } else {
      ScanFirst(pairs, m, value, n);
      hide Scan;
      var first, tail := pairs[0], pairs[1..];
      var c := AfterPair(PercentEncode(first.key), PercentEncode(first.value), JoinRest(pairs), m, n);
      var s := c.Restart(Join(tail));
      StoresMatch(tail, s.keyLength, s.value, s.valueLength);
      StoredCount(tail, s.keyLength, s.value, s.valueLength);
      if tail == [] {
        NothingStored(s.keyLength, s.value, s.valueLength);
      }
      var rest := Scan(Join(tail), s);
      StoredPairsOf(if c.Complete() then [c] else [], rest);
      JoinRestEmpty(pairs);
      if Full(first) {
        FirstStore(first.key, first.value, JoinRest(pairs), m, n);
        SameFirst(c.Stored(), StoredPairs(rest), first, FullPairs(tail));
      } else if c.Complete() {
        assert |StoredPairs(rest)| >= |FullPairs(tail)|;
      } else {
        assert [] + StoredPairs(rest) == StoredPairs(rest) && [] + FullPairs(tail) == FullPairs(tail);
      }
    }
  }

  lemma SameFirst(x: Pair, xs: seq<Pair>, y: Pair, ys: seq<Pair>)
    ensures [x] + xs == [y] + ys <==> x == y && xs == ys
  {
    assert ([x] + xs)[0] == x && ([x] + xs)[1..] == xs;
    assert ([y] + ys)[0] == y && ([y] + ys)[1..] == ys;
  }

  lemma JoinRestEmpty(pairs: seq<Pair>)
    requires Encodable(pairs) && pairs != []
    ensures (JoinRest(pairs) == "" <==> |pairs| == 1) && (JoinRest(pairs) == "" || JoinRest(pairs)[0] == '&')
  {
    hide Join;
  }

  lemma NothingStored(m: nat, value: string, n: nat)
    requires !(m > 0 && n > 0)
    ensures Join([]) == "" && Scan("", Start("", m, value, n)) == [] && StoredPairs([]) == []
  {
  }

  /** Clean in terms of where the incomplete pairs stand. */
  predicate Separate(pairs: seq<Pair>) {
    && (forall i, j :: 0 <= i < j < |pairs| && KeyOnly(pairs[i]) ==> !Full(pairs[j]))
    && (forall i, j :: 0 <= i < j < |pairs| - 1 && ValueOnly(pairs[i]) ==> !Full(pairs[j]))
    && (forall i, j :: 0 <= i < |pairs| && 0 <= j < |pairs| && KeyOnly(pairs[i]) ==> !ValueOnly(pairs[j]))
  }

  /** The same with lengths pending at the start. */
  predicate SeparateFrom(pairs: seq<Pair>, m: bool, n: bool) {
    && Separate(pairs)
    && (m ==> forall j :: 0 <= j < |pairs| ==> !Full(pairs[j]) && !ValueOnly(pairs[j]))
    && (n ==> forall j :: 0 <= j < |pairs| ==> !KeyOnly(pairs[j]) && (Full(pairs[j]) ==> j == |pairs| - 1))
  }

  /** What the first pair adds to the lengths pending. */
  function PendingKey(p: Pair, m: bool): bool { KeyOnly(p) || (m && p == Pair("", "")) }
  function PendingValue(p: Pair, n: bool): bool { ValueOnly(p) || (n && p == Pair("", "")) }

  lemma {:induction false} CleanIsSeparate(pairs: seq<Pair>, m: bool, n: bool)
    requires !(m && n)
    ensures Clean(pairs, m, n) <==> SeparateFrom(pairs, m, n)
    decreases |pairs|
  {
    if pairs != [] {
      hide SeparateFrom;
      CleanIsSeparate(pairs[1..], PendingKey(pairs[0], m), PendingValue(pairs[0], n));
      if SeparateFrom(pairs, m, n) {
        SeparateTail(pairs, m, n);
      } else if FirstAllowed(pairs, m, n)
        && SeparateFrom(pairs[1..], PendingKey(pairs[0], m), PendingValue(pairs[0], n)) {
        SeparateCons(pairs, m, n);
      }
    }
  }

  predicate FirstAllowed(pairs: seq<Pair>, m: bool, n: bool)
    requires pairs != []
  {
    if Full(pairs[0]) then !m && (!n || |pairs| == 1)
    else if KeyOnly(pairs[0]) then !n
    else ValueOnly(pairs[0]) ==> !m
  }

  lemma SeparateTail(pairs: seq<Pair>, m: bool, n: bool)
    requires !(m && n) && pairs != [] && SeparateFrom(pairs, m, n)
    ensures FirstAllowed(pairs, m, n)
    ensures SeparateFrom(pairs[1..], PendingKey(pairs[0], m), PendingValue(pairs[0], n))
  {
    var tail := pairs[1..];
    assert forall j :: 0 <= j < |tail| ==> tail[j] == pairs[j + 1];
    hide Full, KeyOnly, ValueOnly;
  }

  lemma SeparateCons(pairs: seq<Pair>, m: bool, n: bool)
    requires !(m && n) && pairs != [] && FirstAllowed(pairs, m, n)
    requires SeparateFrom(pairs[1..], PendingKey(pairs[0], m), PendingValue(pairs[0], n))
    ensures SeparateFrom(pairs, m, n)
  {
    var tail := pairs[1..];
    assert forall j :: 0 < j < |pairs| ==> pairs[j] == tail[j - 1];
    OneKind(pairs[0]);
    hide Full, KeyOnly, ValueOnly;
  }

  lemma OneKind(p: Pair)
    ensures !(Full(p) && KeyOnly(p)) && !(Full(p) && ValueOnly(p)) && !(KeyOnly(p) && ValueOnly(p))
    ensures p == Pair("", "") <==> !Full(p) && !KeyOnly(p) && !ValueOnly(p)
  {
  }

  /**
   * For every list: the query stores exactly its full pairs, in order, if and
   * only if no key without value stands before a full pair, no value without
   * key before a full pair that is not last, and the two kinds do not occur
   * together.
   */
  lemma StoresExactly(pairs: seq<Pair>, path: string)
    requires Encodable(pairs) && '?' !in path
    ensures StoredPairs(Stores(Join(pairs))) == FullPairs(pairs) <==> Separate(pairs)
    ensures StoredPairs(Stores(path + ("?" + Join(pairs)))) == FullPairs(pairs) <==> Separate(pairs)
  {
    hide Join, Scan, StoredPairs, FullPairs, Stores, Separate, Clean;
    StoresOfJoined(pairs, path);
    StoresMatch(pairs, 0, "", 0);
    CleanIsSeparate(pairs, false, false);
  }

  predicate AllFull(pairs: seq<Pair>) {
    forall i :: 0 <= i < |pairs| ==> Full(pairs[i])
  }

  lemma {:induction false} FullPairsOfFull(pairs: seq<Pair>)
    requires AllFull(pairs)
    ensures FullPairs(pairs) == pairs
  {
    if pairs != [] {
      FullPairsOfFull(pairs[1..]);
      assert pairs == [pairs[0]] + pairs[1..];
    }
  }

  /** Parsing gives back the full pairs that were encoded and joined, alone or after a path and '?'. */
  lemma QueryRoundTrip(pairs: seq<Pair>, path: string, params: Params)
    requires Encodable(pairs) && AllFull(pairs) && '?' !in path
    ensures Query(Join(pairs), params) == Entries(pairs, params)
    ensures Query(path + ("?" + Join(pairs)), params) == Entries(pairs, params)
  {
    hide Join, Scan, StoredPairs, FullPairs, Stores, Entries, Full, KeyOnly, ValueOnly;
    assert Separate(pairs) by { FullIsSeparate(pairs); }
    hide Separate, AllFull;
    StoresExactly(pairs, path);
    FullPairsOfFull(pairs);
  }

  lemma FullIsSeparate(pairs: seq<Pair>)
    requires AllFull(pairs)
    ensures Separate(pairs)
  {
  }

  // ---- distinct keys: exactly the lists of full pairs come back ----

  predicate DistinctKeys(pairs: seq<Pair>) {
    forall i, j :: 0 <= i < j < |pairs| ==> pairs[i].key != pairs[j].key
  }

  lemma {:induction false} EntriesHold(pairs: seq<Pair>, params: Params, i: nat)
    requires DistinctKeys(pairs) && i < |pairs|
    ensures pairs[i].key in Entries(pairs, params) && Entries(pairs, params)[pairs[i].key] == pairs[i].value
    decreases |pairs|
  {
    var params' := params[pairs[0].key := pairs[0].value];
    if i > 0 {
      assert pairs[1..][i - 1] == pairs[i];
      EntriesHold(pairs[1..], params', i - 1);
    } else {
      EntriesKeep(pairs[1..], params', pairs[0].key);
    }
  }

  lemma {:induction false} EntriesKeep(pairs: seq<Pair>, params: Params, key: string)
    requires key in params && forall i :: 0 <= i < |pairs| ==> pairs[i].key != key
    ensures key in Entries(pairs, params) && Entries(pairs, params)[key] == params[key]
    decreases |pairs|
  {
    if pairs != [] {
      EntriesKeep(pairs[1..], params[pairs[0].key := pairs[0].value], key);
    }
  }

  /** Every key and value of a map that entries built is that of some entry. */
  lemma {:induction false} EntriesFrom(pairs: seq<Pair>, params: Params, key: string)
    requires key in Entries(pairs, params)
    ensures (key in params && Entries(pairs, params)[key] == params[key])
            || Pair(key, Entries(pairs, params)[key]) in pairs
    decreases |pairs|
  {
    if pairs != [] {
      EntriesFrom(pairs[1..], params[pairs[0].key := pairs[0].value], key);
    }
  }

  /** No query at all stores an entry under the empty key. */
  lemma {:induction false} KeysNonEmpty(p: string, c: Cursor)
    requires |c.key| >= |p| && (|c.key| > |p| || !c.Complete())
    ensures forall s :: s in Scan(p, c) ==> s.key != "" && s.Complete()
    decreases |p|
  {
    if p == "" {
    } else if p[0] == '&' {
      KeysNonEmpty(p[1..], c.Restart(p[1..]));
    } else if p[0] == '=' {
      KeysNonEmpty(p[1..], c.(inValue := true, value := p[1..]));
    } else if c.inValue {
      KeysNonEmpty(p[1..], c.(valueLength := c.valueLength + 1));
    } else {
      KeysNonEmpty(p[1..], c.(keyLength := c.keyLength + 1));
    }
  }

  lemma {:induction false} StoredPairsAt(stores: seq<Cursor>, p: Pair)
    requires p in StoredPairs(stores)
    ensures exists c :: c in stores && c.Stored() == p
  {
    hide Cursor.Stored;
    if p != stores[0].Stored() {
      StoredPairsAt(stores[1..], p);
    }
  }

  /** When every key is there, no stray value length arises and no empty value is stored. */
  lemma {:induction false} ValuesNonEmpty(pairs: seq<Pair>, m: nat, value: string)
    requires Encodable(pairs) && forall i :: 0 <= i < |pairs| ==> pairs[i].key != ""
    ensures forall s :: s in Scan(Join(pairs), Start(Join(pairs), m, value, 0)) ==> s.value != "" && s.Complete()
    decreases |pairs|
  {
    hide PercentEncode, Join, JoinRest, Scan;
    if pairs == [] {
      NothingStored(m, value, 0);
    } else {
      ScanFirst(pairs, m, value, 0);
      var a, b := PercentEncode(pairs[0].key), PercentEncode(pairs[0].value);
      EncodeLength(pairs[0].value);
      var c := AfterPair(a, b, JoinRest(pairs), m, 0);
      var s := c.Restart(Join(pairs[1..]));
      ValuesNonEmpty(pairs[1..], s.keyLength, s.value);
    }
  }

  lemma StoredNonEmpty(c: Cursor)
    requires c.Complete()
    ensures c.key != "" ==> c.Stored().key != ""
    ensures c.value != "" ==> c.Stored().value != ""
  {
    hide Unescape;
    UnescapeNonEmpty(Copied(c.key, c.keyLength));
    UnescapeNonEmpty(Copied(c.value, c.valueLength));
  }

  /** A pair that is not full; one without key if there is one. */
  lemma Worst(pairs: seq<Pair>) returns (i: nat)
    requires !AllFull(pairs)
    ensures i < |pairs| && !Full(pairs[i])
    ensures pairs[i].key == "" || forall j :: 0 <= j < |pairs| ==> pairs[j].key != ""
  {
    if j :| 0 <= j < |pairs| && pairs[j].key == "" {
      i := j;
    } else {
      i :| 0 <= i < |pairs| && !Full(pairs[i]);
    }
  }

  /** A list with distinct keys comes back exactly when every key and every value is there. */
  lemma DistinctRoundTrip(pairs: seq<Pair>)
    requires Encodable(pairs) && DistinctKeys(pairs)
    ensures Query(Join(pairs), map[]) == Entries(pairs, map[]) <==> AllFull(pairs)
  {
    hide Join, Scan, Entries, StoredPairs, AfterQuestion, Cursor.Stored, Unescape;
    if AllFull(pairs) {
      QueryRoundTrip(pairs, "", map[]);
    } else if Query(Join(pairs), map[]) == Entries(pairs, map[]) {
      var i := Worst(pairs);
      EntriesHold(pairs, map[], i);
      var stores := Stores(Join(pairs));
      EntriesFrom(StoredPairs(stores), map[], pairs[i].key);
      StoredPairsAt(stores, pairs[i]);
      var c :| c in stores && c.Stored() == pairs[i];
      StoresOfJoined(pairs, "");
      KeysNonEmpty(Join(pairs), Start(Join(pairs), 0, "", 0));
      if pairs[i].key != "" {
        ValuesNonEmpty(pairs, 0, "");
      }
      StoredNonEmpty(c);
    }
  }

  // ---- when the copies stay within the query ----

  /** The lengths pending at each store fit into what the query still has there. */
  predicate Fits(pairs: seq<Pair>, m: nat, n: nat)
    requires Encodable(pairs)
    decreases |pairs|
  {
    pairs == [] ||
    var a, b, r := |PercentEncode(pairs[0].key)|, |PercentEncode(pairs[0].value)|, |JoinRest(pairs)|;
    if m + a > 0 && n + b > 0 then m <= 1 + b + r && n <= r && Fits(pairs[1..], 0, 0)
    else Fits(pairs[1..], m + a, n + b)
  }

  lemma {:induction false} ScanWithin(pairs: seq<Pair>, m: nat, value: string, n: nat)
    requires Encodable(pairs) && !(m > 0 && n > 0)
    ensures (forall c :: c in Scan(Join(pairs), Start(Join(pairs), m, value, n)) ==> c.Within()) <==> Fits(pairs, m, n)
    decreases |pairs|
  {
    hide PercentEncode, Join, JoinRest, Scan;
    if pairs == [] {
      NothingStored(m, value, n);
    } else {
      ScanFirst(pairs, m, value, n);
      var c := AfterPair(PercentEncode(pairs[0].key), PercentEncode(pairs[0].value), JoinRest(pairs), m, n);
      var s := c.Restart(Join(pairs[1..]));
      ScanWithin(pairs[1..], s.keyLength, s.value, s.valueLength);
      if |pairs| == 1 {
        NothingStored(s.keyLength, s.value, s.valueLength);
      }
      var head, rest := if c.Complete() then [c] else [], Scan(Join(pairs[1..]), s);
      assert Scan(Join(pairs), Start(Join(pairs), m, value, n)) == head + rest;
      assert forall x :: x in head + rest <==> x in head || x in rest;
      assert c.Complete() ==> c in head;
    }
  }

  /**
   * Both std::string copies of every store stay within the query exactly when
   * the pending lengths fit; for full pairs nothing is pending.
   */
  lemma CopiesWithin(pairs: seq<Pair>)
    requires Encodable(pairs)
    ensures (forall c :: c in Stores(Join(pairs)) ==> c.Within()) <==> Fits(pairs, 0, 0)
    ensures AllFull(pairs) ==> Fits(pairs, 0, 0)
  {
    hide Join, Scan, Fits;
    StoresOfJoined(pairs, "");
    ScanWithin(pairs, 0, "", 0);
    if AllFull(pairs) {
      FullFits(pairs);
    }
  }

  lemma {:induction false} FullFits(pairs: seq<Pair>)
    requires Encodable(pairs) && AllFull(pairs)
    ensures Fits(pairs, 0, 0)
    decreases |pairs|
  {
    hide PercentEncode, JoinRest;
    if pairs != [] {
      EncodeLength(pairs[0].key);
      EncodeLength(pairs[0].value);
      FullFits(pairs[1..]);
    }
  }

  /**
   * A key without value in front of a full pair: the next key runs into the '='
   * and what follows it, and past the end when the first key is too long.
   */
  lemma EmptyValueSpoilsNext(k: string, k2: string, v2: string)
    requires k != "" && k2 != "" && v2 != "" && Bytes(k) && Bytes(k2) && Bytes(v2)
    ensures Encodable([Pair(k, ""), Pair(k2, v2)])
    ensures var pairs := [Pair(k, ""), Pair(k2, v2)];
            var m, c := |PercentEncode(k)|, PercentEncode(v2);
            && Query(Join(pairs), map[]) == map[k2 + ("=" + Unescape(Copied(c, m - 1))) := v2]
            && (Fits(pairs, 0, 0) <==> m <= 1 + |c|)
  {
    hide Unescape, PercentEncode, Scan, Fits, Plain, Join, Stores, StoredPairs, Entries;
    var a, b, c := PercentEncode(k), PercentEncode(k2), PercentEncode(v2);
    var last := AfterPair(b, c, "", |a|, 0);
    SpoiltFits(k, k2, v2);
    SpoiltStores(k, k2, v2);
    SpoiltKey(k2, c, |a|);
    CopiedSpoilt(v2, "", 0);
    StoredOnce(last);
  }

  lemma StoredOnce(c: Cursor)
    ensures Entries(StoredPairs([c]), map[]) == map[c.Stored().key := c.Stored().value]
  {
    hide Cursor.Stored;
    EntriesFirst(c, [], map[]);
    assert [c] + [] == [c];
  }

  lemma SpoiltStores(k: string, k2: string, v2: string)
    requires k != "" && k2 != "" && v2 != "" && Bytes(k) && Bytes(k2) && Bytes(v2)
    ensures Encodable([Pair(k, ""), Pair(k2, v2)])
    ensures Stores(Join([Pair(k, ""), Pair(k2, v2)]))
            == [AfterPair(PercentEncode(k2), PercentEncode(v2), "", |PercentEncode(k)|, 0)]
  {
    hide PercentEncode, Scan, Plain, Join;
    var pairs := [Pair(k, ""), Pair(k2, v2)];
    EncodeLength("");
    assert pairs[1..] == [Pair(k2, v2)] && pairs[1..][1..] == [];
    StoresOfJoined(pairs, "");
    ScanFirst(pairs, 0, "", 0);
    ScanFirst(pairs[1..], |PercentEncode(k)|, PercentEncode("") + JoinRest(pairs), 0);
  }

  lemma SpoiltFits(k: string, k2: string, v2: string)
    requires k != "" && k2 != "" && v2 != "" && Bytes(k) && Bytes(k2) && Bytes(v2)
    ensures Encodable([Pair(k, ""), Pair(k2, v2)])
    ensures Fits([Pair(k, ""), Pair(k2, v2)], 0, 0) <==> |PercentEncode(k)| <= 1 + |PercentEncode(v2)|
  {
    hide PercentEncode;
    var pairs := [Pair(k, ""), Pair(k2, v2)];
    assert pairs[1..] == [Pair(k2, v2)] && pairs[1..][1..] == [];
    EncodeLength("");
    EncodeLength(k);
    EncodeLength(k2);
    EncodeLength(v2);
    assert Fits(pairs[1..], |PercentEncode(k)|, 0) <==> |PercentEncode(k)| <= 1 + |PercentEncode(v2)|;
  }

  lemma SpoiltKey(k2: string, c: string, m: nat)
    requires Bytes(k2) && m > 0
    ensures var b := PercentEncode(k2);
            Unescape(Copied(b + ("=" + (c + "")), m + |b|)) == k2 + ("=" + Unescape(Copied(c, m - 1)))
  {
    hide Unescape, PercentEncode;
    var b := PercentEncode(k2);
    var rest := "=" + Copied(c, m - 1);
    assert c + "" == c;
    assert Copied(b + ("=" + c), m + |b|) == b + rest;
    UnescapeEncodedThen(k2, rest);
    UnescapeFirst(rest);
    assert rest[1..] == Copied(c, m - 1);
  }

  lemma UnescapeFirst(s: string)
    requires s != "" && s[0] != '%'
    ensures Unescape(s) == [s[0]] + Unescape(s[1..])
  {
  }
}
