/** The SQL string semantics the two queries of `generate` rely on:
    `SUBSTR(s, pos, len)`, and the ordering `MAX` uses on strings (a binary
    collation: character by character, a proper prefix first). */
module SqlStrings {
  import opened PhpStrings

  function Min(a: int, b: int): int {
    if a < b then a else b
  }

  /** `SUBSTR(s, offset + 1, count)`: at most `count` characters of `s` taken
      from the 0-based position `offset`; empty when `count` is not positive
      or the position lies past the end. */
  function Substr(s: string, offset: nat, count: int): (r: string)
    ensures |r| == if count <= 0 || offset >= |s| then 0 else Min(count, |s| - offset)
    ensures forall i :: 0 <= i < |r| ==> r[i] == s[offset + i]
  {
    if count <= 0 || offset >= |s| then [] else s[offset..Min(offset + count, |s|)]
  }

  /** `a <= b` in the string order of a binary collation. */
  predicate LexLe(a: string, b: string) {
    if a == [] then true
    else if b == [] then false
    else if a[0] != b[0] then a[0] < b[0]
    else LexLe(a[1..], b[1..])
  }

  lemma {:induction false} LexLeReflexive(a: string)
    ensures LexLe(a, a)
  {
    if a != [] {
      LexLeReflexive(a[1..]);
    }
  }

  lemma {:induction false} LexLeTotal(a: string, b: string)
    ensures LexLe(a, b) || LexLe(b, a)
  {
    if a != [] && b != [] && a[0] == b[0] {
      LexLeTotal(a[1..], b[1..]);
    }
  }

  lemma {:induction false} LexLeAntisymmetric(a: string, b: string)
    requires LexLe(a, b) && LexLe(b, a)
    ensures a == b
  {
    if a != [] && b != [] {
      LexLeAntisymmetric(a[1..], b[1..]);
      assert a == [a[0]] + a[1..] && b == [b[0]] + b[1..];
    }
  }

  lemma {:induction false} LexLeTransitive(a: string, b: string, c: string)
    requires LexLe(a, b) && LexLe(b, c)
    ensures LexLe(a, c)
  {
    if a != [] && b != [] && c != [] && a[0] == b[0] && b[0] == c[0] {
      LexLeTransitive(a[1..], b[1..], c[1..]);
    }
  }

  /** The larger of two strings in the collation order. */
  function LexMax(a: string, b: string): (r: string)
    ensures r == a || r == b
    ensures LexLe(a, r) && LexLe(b, r)
  {
    LexLeTotal(a, b);
    LexLeReflexive(a);
    LexLeReflexive(b);
    if LexLe(a, b) then b else a
  }

  /** SQL `MAX` over a non-empty list of strings: an element of the list
      that no element exceeds. */
  function MaxOf(ss: seq<string>): (r: string)
    requires |ss| > 0
    ensures r in ss
    ensures forall i :: 0 <= i < |ss| ==> LexLe(ss[i], r)
  {
    if |ss| == 1 then
      LexLeReflexive(ss[0]);
      ss[0]
    else
      var init := ss[..|ss| - 1];
      var m := MaxOf(init);
      var r := LexMax(m, ss[|ss| - 1]);
      assert forall i :: 0 <= i < |ss| ==> LexLe(ss[i], r) by {
        forall i | 0 <= i < |ss| ensures LexLe(ss[i], r) {
          if i < |ss| - 1 {
            assert init[i] == ss[i];
            LexLeTransitive(ss[i], m, r);
          }
        }
      }
      r
  }

  /** An element that no element of the list exceeds is the list's `MAX`. */
  lemma MaxOfIsGreatest(ss: seq<string>, x: string)
    requires x in ss
    requires forall i :: 0 <= i < |ss| ==> LexLe(ss[i], x)
    ensures MaxOf(ss) == x
  {
    var m := MaxOf(ss);
    var k :| 0 <= k < |ss| && ss[k] == m;
    var j :| 0 <= j < |ss| && ss[j] == x;
    assert LexLe(ss[j], m);
    LexLeAntisymmetric(m, x);
  }

  /** The leading digit of a digit string weighs 10^(length - 1). */
  lemma ValueFront(s: string)
    requires AllDigits(s) && s != []
    ensures AllDigits(s[1..])
    ensures Value(s) == DigitOf(s[0]) * Pow10(|s| - 1) + Value(s[1..])
  {
    var h, t := [s[0]], s[1..];
    assert h + t == s;
    assert AllDigits(t);
    assert h[..0] == [];
    assert Value(h) == DigitOf(s[0]);
    ValueConcat(h, t);
  }

  lemma LeadingDigitDominates(da: nat, db: nat, p: nat, ra: nat, rb: nat)
    requires da < db && ra < p
    ensures da * p + ra < db * p + rb
  {
    assert (da + 1) * p <= db * p;
  }

  /** On digit strings of equal width the collation order is numeric order.
      This is what makes `MAX` over fixed-width suffixes the numeric maximum. */
  lemma {:induction false} LexOrderIsNumeric(a: string, b: string)
    requires |a| == |b| && AllDigits(a) && AllDigits(b)
    ensures LexLe(a, b) <==> Value(a) <= Value(b)
  {
    if a != [] {
      ValueFront(a);
      ValueFront(b);
      var p := Pow10(|a| - 1);
      var da, db := DigitOf(a[0]), DigitOf(b[0]);
      if a[0] == b[0] {
        LexOrderIsNumeric(a[1..], b[1..]);
      } else if a[0] < b[0] {
        LeadingDigitDominates(da, db, p, Value(a[1..]), Value(b[1..]));
      } else {
        LeadingDigitDominates(db, da, p, Value(b[1..]), Value(a[1..]));
      }
    }
  }
}
