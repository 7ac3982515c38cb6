/** The order SQLite uses for TEXT values under its default BINARY collation:
    character by character, and a proper prefix sorts before the longer text.
    For well-formed text, comparing UTF-8 bytes and comparing code points agree,
    so the model compares Dafny characters (Unicode scalar values). */
module TextOrder {

  /** `a <= b` as SQLite evaluates it on two TEXT values. */
  predicate LexLe(a: string, b: string)
    decreases |a|
  {
    if |a| == 0 then true
    else if |b| == 0 then false
    else if a[0] != b[0] then a[0] < b[0]
    else LexLe(a[1..], b[1..])
  }

  lemma {:induction false} LexLeReflexive(a: string)
    ensures LexLe(a, a)
    decreases |a|
  {
    if |a| > 0 {
      LexLeReflexive(a[1..]);
    }
  }

  lemma {:induction false} LexLeTotal(a: string, b: string)
    ensures LexLe(a, b) || LexLe(b, a)
    decreases |a|
  {
    if |a| > 0 && |b| > 0 && a[0] == b[0] {
      LexLeTotal(a[1..], b[1..]);
    }
  }

  lemma {:induction false} LexLeTransitive(a: string, b: string, c: string)
    requires LexLe(a, b) && LexLe(b, c)
    ensures LexLe(a, c)
    decreases |a|
  {
    if |a| > 0 && |b| > 0 && |c| > 0 && a[0] == b[0] && b[0] == c[0] {
      LexLeTransitive(a[1..], b[1..], c[1..]);
    }
  }

  lemma {:induction false} LexLeAntisymmetric(a: string, b: string)
    requires LexLe(a, b) && LexLe(b, a)
    ensures a == b
    decreases |a|
  {
    if |a| > 0 && |b| > 0 {
      LexLeAntisymmetric(a[1..], b[1..]);
      assert a == [a[0]] + a[1..] && b == [b[0]] + b[1..];
    }
  }

  /** Texts that share a prefix compare as the rest of them does. */
  lemma {:induction false} LexLeCommonPrefix(a: string, b: string, c: string)
    ensures LexLe(a + b, a + c) == LexLe(b, c)
    decreases |a|
  {
    if |a| == 0 {
      assert a + b == b && a + c == c;
    } else {
      assert (a + b)[1..] == a[1..] + b;
      assert (a + c)[1..] == a[1..] + c;
      LexLeCommonPrefix(a[1..], b, c);
    }
  }
}
