/**
  C strings as the AST and the code generator use them: memory read up to the
  first NUL.  An argument of type `const char*` is modelled as the memory it
  points to, which must hold a NUL somewhere (otherwise `strlen` reads past
  it); a stored copy is the bytes up to and including that NUL.
 */
module CStrings {

  const NUL: char := '\0'

  /** Memory that `strlen` can safely scan. */
  predicate Terminated(mem: seq<char>) {
    NUL in mem
  }

  /** A string exactly as `malloc(strlen + 1)` and `memcpy` leave it: one NUL, at the end. */
  predicate IsCString(s: seq<char>) {
    |s| > 0 && s[|s| - 1] == NUL && NUL !in s[..|s| - 1]
  }

  /** strlen: the index of the first NUL. */
  function Strlen(mem: seq<char>): (n: nat)
    requires Terminated(mem)
    ensures n < |mem| && mem[n] == NUL
    ensures NUL !in mem[..n]
  {
    if mem[0] == NUL then 0
    else
      assert NUL in mem[1..];
      var k := Strlen(mem[1..]);
      assert mem[..k + 1] == [mem[0]] + mem[1..][..k];
      k + 1
  }

  /** The characters of the string, without the terminator. */
  function Text(mem: seq<char>): (t: seq<char>)
    requires Terminated(mem)
    ensures NUL !in t && t + [NUL] <= mem
  {
    mem[..Strlen(mem)]
  }

  /** `copy` is what the constructors store for the argument `mem`. */
  predicate CopyOf(copy: seq<char>, mem: seq<char>) {
    IsCString(copy) && copy <= mem
  }

  /** The `strlen(s) + 1` bytes that the constructors `malloc` and `memcpy`. */
  function Dup(mem: seq<char>): (copy: seq<char>)
    requires Terminated(mem)
    ensures CopyOf(copy, mem)
    ensures Terminated(copy) && Text(copy) == Text(mem)
  {
    var n := Strlen(mem);
    assert mem[..n + 1][..n] == mem[..n];
    mem[..n + 1]
  }

  /** A terminated memory region has exactly one copy: the stored string is determined by the argument. */
  lemma CopyIsUnique(a: seq<char>, b: seq<char>, mem: seq<char>)
    requires CopyOf(a, mem) && CopyOf(b, mem)
    ensures a == b
  {
  }

  /** Copying a stored string gives it back unchanged. */
  lemma DupOfCString(s: seq<char>)
    requires IsCString(s)
    ensures Terminated(s) && Dup(s) == s
  {
    assert s[|s| - 1] in s;
    CopyIsUnique(Dup(s), s, s);
  }

  /**
    strcmp, up to sign: the characters are compared as unsigned values until
    they differ or both strings end.  C promises only the sign of the result,
    so the model returns -1, 0 or 1.
   */
  function Strcmp(a: seq<char>, b: seq<char>): (r: int)
    requires Terminated(a) && Terminated(b)
    ensures -1 <= r <= 1
    ensures r == 0 <==> Text(a) == Text(b)
  {
    if a[0] != b[0] then
      assert Text(a) == [] || Text(b) == [] || Text(a)[0] != Text(b)[0];
      if a[0] < b[0] then -1 else 1
    else if a[0] == NUL then 0
    else
      assert NUL in a[1..] && NUL in b[1..];
      assert Text(a) == [a[0]] + Text(a[1..]);
      assert Text(b) == [b[0]] + Text(b[1..]);
      Strcmp(a[1..], b[1..])
  }

  /** The string literal `t` as the compiler lays it out: its characters and a NUL. */
  function Literal(t: seq<char>): (mem: seq<char>)
    requires NUL !in t
    ensures IsCString(mem) && Terminated(mem) && Text(mem) == t
  {
    var mem := t + [NUL];
    assert mem[..|t|] == t;
    mem
  }
}
