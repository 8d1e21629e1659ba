/** C strings: characters in an array, with a terminator. */
module CStrings {
  predicate Plain(s: string)
  {
    forall i :: 0 <= i < |s| ==> s[i] != '\0'
  }

  lemma PlainConcat(a: string, b: string)
    requires Plain(a) && Plain(b)
    ensures Plain(a + b)
  {
  }

  /** a holds s from index from on, with its terminator. */
  ghost predicate IsString(a: array<char>, from: nat, s: string)
    reads a
  {
    && from + |s| < a.Length
    && (forall i :: 0 <= i < |s| ==> a[from + i] == s[i] && s[i] != '\0')
    && a[from + |s|] == '\0'
  }

  lemma SliceIsString(a: array<char>, s: string)
    requires |s| < a.Length && a[..|s|] == s && a[|s|] == '\0' && Plain(s)
    ensures IsString(a, 0, s)
  {
    forall i | 0 <= i < |s| ensures a[0 + i] == s[i] && s[i] != '\0' {
      assert a[..|s|][i] == s[i];
    }
  }

  method StrLen(a: array<char>, from: nat, ghost s: string) returns (n: nat)
    requires IsString(a, from, s)
    ensures n == |s|
  {
    n := 0;
    while a[from + n] != '\0'
      invariant n <= |s| && (n < |s| ==> a[from + n] == s[n] && s[n] != '\0')
      decreases |s| - n
    {
      n := n + 1;
    }
  }

  method StrDup(a: array<char>, from: nat, ghost s: string) returns (copy: array<char>)
    requires IsString(a, from, s)
    ensures fresh(copy) && IsString(copy, 0, s)
  {
    var n := StrLen(a, from, s);
    copy := new char[n + 1];
    forall i | 0 <= i <= n {
      copy[i] := a[from + i];
    }
  }

  /** Appends text to what is written up to at. */
  method Write(a: array<char>, at: nat, text: string) returns (end: nat)
    requires at + |text| <= a.Length
    modifies a
    ensures end == at + |text| && a[..end] == old(a[..at]) + text
  {
    end := at + |text|;
    forall i | 0 <= i < |text| {
      a[at + i] := text[i];
    }
  }
}
