/**
 * Characters and C strings as the calculator sees them.
 *
 * A C string is a character buffer that ends at its first NUL; `Peek`
 * reads the character under a cursor and yields NUL once the cursor has
 * reached the end, exactly as dereferencing a `const char *` would.
 */
module Text {

  /** The absent pointer (NULL) or a present value. */
  datatype Option<+T> = None | Some(value: T)

  /** The characters `isspace` accepts in the C locale: space, \t, \n, \v, \f and \r. */
  predicate IsSpace(c: char) {
    c == ' ' || ('\t' <= c <= '\r')
  }

  /** The characters `isdigit` accepts. */
  predicate IsDigit(c: char) {
    '0' <= c <= '9'
  }

  /** The character under cursor `i`; NUL at (and past) the end of the text. */
  function Peek(s: seq<char>, i: nat): char {
    if i < |s| then s[i] else '\0'
  }

  /** The number of characters before the first NUL of `a`, as `strlen` computes it. */
  function Strlen(a: seq<char>): (n: nat)
    requires '\0' in a
    ensures n < |a| && a[n] == '\0'
    ensures forall i :: 0 <= i < n ==> a[i] != '\0'
  {
    if a[0] == '\0' then 0 else 1 + Strlen(a[1..])
  }

  /** The text a NUL-terminated buffer holds: everything before its first NUL. */
  function CString(a: seq<char>): (s: seq<char>)
    requires '\0' in a
    ensures '\0' !in s && |s| < |a|
    ensures a[..|s|] == s && a[|s|] == '\0'
  {
    a[..Strlen(a)]
  }

  /** A buffer holding `s` followed by its terminating NUL is read back as `s`. */
  lemma {:induction false} CStringOfTerminated(s: seq<char>)
    requires '\0' !in s
    ensures '\0' in s + ['\0']
    ensures CString(s + ['\0']) == s
  {
    assert (s + ['\0'])[|s|] == '\0';
  }
}
