/** Strings in memory that end at a NUL. */
module CStrings {

  const NUL: char := 0 as char

  /** The bytes before the first NUL. */
  function UpToNul(mem: string): (s: string)
    ensures |s| <= |mem| && s == mem[..|s|]
    ensures |s| < |mem| ==> mem[|s|] == NUL
    ensures forall i :: 0 <= i < |s| ==> s[i] != NUL
  {
    if mem == "" || mem[0] == NUL then "" else [mem[0]] + UpToNul(mem[1..])
  }

  lemma {:induction false} NulFound(mem: string)
    ensures |UpToNul(mem)| < |mem| <==> NUL in mem
  {
    if mem != "" && mem[0] != NUL {
      NulFound(mem[1..]);
      assert mem == [mem[0]] + mem[1..];
    }
  }

  lemma {:induction false} WholeString(s: string)
    requires NUL !in s
    ensures UpToNul(s + [NUL]) == s
  {
    if s != "" {
      WholeString(s[1..]);
      assert (s + [NUL])[1..] == s[1..] + [NUL];
      assert s == [s[0]] + s[1..];
    }
  }
}
