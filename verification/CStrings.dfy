// C strings as Dafny strings: a byte b is the char with code b, and the
// terminating NUL is not part of the string.

module CStrings {

  datatype Option<+T> = None | Some(value: T)

  const NUL: char := '\0'

  /** Reading past the last character of a NUL-terminated buffer yields NUL. */
  function At(s: string, i: nat): char {
    if i < |s| then s[i] else NUL
  }

  predicate NulFree(s: string) {
    NUL !in s
  }

  /** What a `const char*` view of a std::string shows: the part before the first NUL. */
  function CStr(s: string): (r: string)
    ensures NulFree(r) && r <= s
    ensures |r| < |s| ==> s[|r|] == NUL
  {
    if s == "" || s[0] == NUL then "" else [s[0]] + CStr(s[1..])
  }

  lemma {:induction false} CStrNulFree(s: string)
    requires NulFree(s)
    ensures CStr(s) == s
  {
    if s != "" {
      CStrNulFree(s[1..]);
    }
  }

  /** strcmp(a, b) < 0 on NUL-free strings. */
  predicate StrLess(a: string, b: string) {
    if b == "" then false
    else if a == "" then true
    else if a[0] != b[0] then a[0] < b[0]
    else StrLess(a[1..], b[1..])
  }

  lemma {:induction false} StrLessTrichotomy(a: string, b: string)
    ensures !StrLess(a, a)
    ensures a == b || StrLess(a, b) || StrLess(b, a)
    ensures !(StrLess(a, b) && StrLess(b, a))
  {
    if a != "" {
      StrLessTrichotomy(a[1..], if b == "" then "" else b[1..]);
      if b != "" && a[0] == b[0] {
        assert a == [a[0]] + a[1..] && b == [b[0]] + b[1..];
      }
    }
  }

  /** The order is that of the first difference, and a proper prefix comes first. */
  lemma {:induction false} StrLessMeaning(a: string, b: string)
    ensures StrLess(a, b) <==> a < b || exists k :: 0 <= k < |a| && k < |b| && a[..k] == b[..k] && a[k] < b[k]
  {
    if a != "" && b != "" && a[0] == b[0] {
      var s, t := a[1..], b[1..];
      assert a == [a[0]] + s && b == [b[0]] + t;
      StrLessMeaning(s, t);
      if k :| 0 <= k < |s| && k < |t| && s[..k] == t[..k] && s[k] < t[k] {
        assert a[..k + 1] == [a[0]] + s[..k] && b[..k + 1] == [b[0]] + t[..k];
        assert a[k + 1] < b[k + 1];
      }
      if k :| 0 <= k < |a| && k < |b| && a[..k] == b[..k] && a[k] < b[k] {
        assert s[..k - 1] == a[..k][1..] && t[..k - 1] == b[..k][1..];
        assert s[k - 1] < t[k - 1];
      }
    } else if a != "" && b != "" {
      assert a[..0] == b[..0];
    }
  }

  lemma {:induction false} StrLessTransitive(a: string, b: string, c: string)
    requires StrLess(a, b) && StrLess(b, c)
    ensures StrLess(a, c)
  {
    if a != "" && a[0] == b[0] == c[0] {
      StrLessTransitive(a[1..], b[1..], c[1..]);
    }
  }
}
