/** Characters and their first positions. */
module Text {

  /** White space in the C locale, by character code. */
  predicate IsSpace(code: int) {
    code == 32 || 9 <= code <= 13
  }

  /** The six white-space characters: space, tab, newline, vertical tab, form feed and
      carriage return. */
  lemma SpaceCharacters(c: char)
    ensures IsSpace(c as int) <==> c in [' ', '\t', '\n', '\U{000B}', '\U{000C}', '\r']
  {
  }

  /** First position of c, or the length. */
  function IndexOf(s: string, c: char): (n: nat)
    ensures n <= |s| && c !in s[..n] && (n < |s| ==> s[n] == c)
  {
    if s == [] || s[0] == c then 0 else 1 + IndexOf(s[1..], c)
  }

  lemma {:induction false} IndexPrefix(a: string, b: string, c: char)
    requires IndexOf(a, c) < |a|
    ensures IndexOf(a + b, c) == IndexOf(a, c)
  {
    if a[0] == c {
    } else {
      assert (a + b)[1..] == a[1..] + b;
      IndexPrefix(a[1..], b, c);
    }
  }

  lemma {:induction false} IndexAt(s: string, c: char, n: nat)
    requires n < |s| && s[n] == c && c !in s[..n]
    ensures IndexOf(s, c) == n
  {
    if n == 0 {
    } else {
      assert s[0] == s[..n][0];
      assert s[1..][..n - 1] == s[..n][1..];
      IndexAt(s[1..], c, n - 1);
    }
  }
}
