/** The java.lang.String operations the file search relies on: String.equalsIgnoreCase
    (restricted to ASCII letters) and String.lastIndexOf(char). */
module JavaStrings {

  /** Character case folding for the ASCII letters: 'A'..'Z' become 'a'..'z'; every
      other character is left as it is. */
  function FoldChar(c: char): (r: char)
    ensures !('A' <= r <= 'Z')
    ensures r == c || 'A' <= c <= 'Z'
    ensures 'A' <= c <= 'Z' ==> r as int - 'a' as int == c as int - 'A' as int
  {
    if 'A' <= c <= 'Z' then (c as int - 'A' as int + 'a' as int) as char else c
  }

  /** No ASCII upper-case letter occurs in s. */
  predicate IsLowerAscii(s: string) {
    forall i :: 0 <= i < |s| ==> !('A' <= s[i] <= 'Z')
  }

  /** The string with every character folded. */
  function Fold(s: string): (r: string)
    ensures |r| == |s|
  {
    if s == [] then [] else [FoldChar(s[0])] + Fold(s[1..])
  }

  /** Folding works character by character. */
  lemma {:induction false} FoldAt(s: string, i: int)
    requires 0 <= i < |s|
    ensures Fold(s)[i] == FoldChar(s[i])
  {
    if i > 0 {
      FoldAt(s[1..], i - 1);
    }
  }

  /** Folding distributes over concatenation. */
  lemma {:induction false} FoldAppend(a: string, b: string)
    ensures Fold(a + b) == Fold(a) + Fold(b)
  {
    if a == [] {
      assert a + b == b;
    } else {
      assert (a + b)[1..] == a[1..] + b;
      FoldAppend(a[1..], b);
      assert Fold(a + b) == [FoldChar(a[0])] + (Fold(a[1..]) + Fold(b));
    }
  }

  /** A folded string has no upper-case letter, so folding twice changes nothing more. */
  lemma {:induction false} FoldIsLower(s: string)
    ensures IsLowerAscii(Fold(s))
    ensures Fold(Fold(s)) == Fold(s)
  {
    forall i | 0 <= i < |s| ensures !('A' <= Fold(s)[i] <= 'Z') {
      FoldAt(s, i);
    }
    FoldLower(Fold(s));
  }

  /** A string without upper-case letters is its own folded form. */
  lemma {:induction false} FoldLower(s: string)
    requires IsLowerAscii(s)
    ensures Fold(s) == s
  {
    if s != [] {
      FoldLower(s[1..]);
    }
  }

  /** String.equalsIgnoreCase, with ASCII folding: the strings are equal once folded. */
  predicate EqualsIgnoreCase(a: string, b: string)
    ensures EqualsIgnoreCase(a, b) ==> |a| == |b|
  {
    Fold(a) == Fold(b)
  }

  /** The character-by-character reading of equalsIgnoreCase: same length, and the
      characters at every position agree once folded. */
  lemma EqualsIgnoreCaseCharwise(a: string, b: string)
    ensures EqualsIgnoreCase(a, b) <==>
      |a| == |b| && forall i :: 0 <= i < |a| ==> FoldChar(a[i]) == FoldChar(b[i])
  {
    if |a| == |b| {
      forall i | 0 <= i < |a| ensures Fold(a)[i] == FoldChar(a[i]) && Fold(b)[i] == FoldChar(b[i]) {
        FoldAt(a, i);
        FoldAt(b, i);
      }
    }
  }

  /** Comparing ignoring case against a lower-case literal (as the extension table does)
      is comparing the folded string with the literal. */
  lemma EqualsIgnoreCaseLower(a: string, lit: string)
    requires IsLowerAscii(lit)
    ensures EqualsIgnoreCase(a, lit) <==> Fold(a) == lit
  {
    FoldLower(lit);
  }

  /** String.lastIndexOf(ch): the index of the last occurrence of ch, or -1 when ch does
      not occur. */
  function LastIndexOf(s: string, ch: char): (r: int)
    ensures -1 <= r < |s|
    ensures r == -1 <==> ch !in s
    ensures 0 <= r ==> s[r] == ch && forall j :: r < j < |s| ==> s[j] != ch
  {
    if s == [] then -1
    else if s[|s| - 1] == ch then |s| - 1
    else LastIndexOf(s[..|s| - 1], ch)
  }
}
