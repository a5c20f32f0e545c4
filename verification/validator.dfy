/**
 * The keyword check of the `/recommend` handler (backend/index.ts:39-44):
 * the request is accepted when one of six medical keywords occurs in the
 * lower-cased, space-joined name, symptoms and history.
 */
module Validator {

  import opened Text

  /** The six keywords of line 39, with `í` written as its code point. */
  const Keywords: seq<string> :=
    ["s\U{00ED}ntoma", "dolor", "enfermedad", "tratamiento", "medicamento", "salud"]

  /**
   * `toLowerCase` on one character, for ASCII and Latin-1: `A`-`Z` and
   * `À`-`Þ` except `×` move down by 32; everything else is unchanged.
   */
  function LowerChar(c: char): char
  {
    if 'A' <= c <= 'Z' || ('\U{00C0}' <= c <= '\U{00DE}' && c != '\U{00D7}') then
      (c as int + 32) as char
    else c
  }

  /** `toLowerCase` on a string: character by character. */
  function Lower(s: string): (r: string)
    ensures |r| == |s|
  {
    if |s| == 0 then "" else [LowerChar(s[0])] + Lower(s[1..])
  }

  /** Lower-casing works character by character, so it distributes over concatenation. */
  lemma {:induction false} LowerAppend(a: string, b: string)
    ensures Lower(a + b) == Lower(a) + Lower(b)
    decreases |a|
  {
    if |a| > 0 {
      assert (a + b)[1..] == a[1..] + b;
      LowerAppend(a[1..], b);
    } else {
      assert a + b == b;
    }
  }

  /** Lower-casing twice is lower-casing once. */
  lemma {:induction false} LowerIdempotent(s: string)
    ensures Lower(Lower(s)) == Lower(s)
    decreases |s|
  {
    if |s| > 0 {
      LowerIdempotent(s[1..]);
      assert Lower(s)[1..] == Lower(s[1..]);
    }
  }

  /** The text the check searches (line 40): the three fields joined by single spaces, lower-cased. */
  function InputText(nombre: string, sintomas: string, antecedentes: string): string
  {
    Lower(nombre + " " + sintomas + " " + antecedentes)
  }

  /** The check of line 41: some keyword occurs somewhere in that text. */
  predicate IsValid(nombre: string, sintomas: string, antecedentes: string)
  {
    exists k :: 0 <= k < |Keywords| && Includes(InputText(nombre, sintomas, antecedentes), Keywords[k])
  }

  /** Line 41 as the loop `some` runs: stop at the first keyword found. */
  method Validate(nombre: string, sintomas: string, antecedentes: string) returns (ok: bool)
    ensures ok <==> IsValid(nombre, sintomas, antecedentes)
  {
    var text := InputText(nombre, sintomas, antecedentes);
    ok := false;
    var k := 0;
    while k < |Keywords| && !ok
      invariant 0 <= k <= |Keywords|
      invariant ok <==> exists j :: 0 <= j < k && Includes(text, Keywords[j])
    {
      ok := Includes(text, Keywords[k]);
      k := k + 1;
    }
  }

  /** Lower-case letters only: `a`-`z` and `í`. */
  predicate LowerLetters(w: string)
  {
    forall i :: 0 <= i < |w| ==> 'a' <= w[i] <= 'z' || w[i] == '\U{00ED}'
  }

  lemma {:induction false} LowerOfLowerLetters(w: string)
    requires LowerLetters(w)
    ensures Lower(w) == w
    decreases |w|
  {
    if |w| > 0 {
      LowerOfLowerLetters(w[1..]);
    }
  }

  /** The keywords are already lower-case and hold no space. */
  lemma KeywordsShape(k: nat)
    requires k < |Keywords|
    ensures Lower(Keywords[k]) == Keywords[k]
    ensures ' ' !in Keywords[k]
  {
    assert LowerLetters(Keywords[k]);
    LowerOfLowerLetters(Keywords[k]);
  }

  /** An occurrence in `x + " " + y` lies in `x`, lies in `y`, or covers the space. */
  lemma OccursInJoin(x: string, y: string, p: string, i: int)
    requires OccursAt(x + " " + y, p, i)
    ensures OccursAt(x, p, i) || OccursAt(y, p, i - |x| - 1) || ' ' in p
  {
    var w := x + " " + y;
    if i + |p| <= |x| {
      assert w[i..i + |p|] == x[i..i + |p|];
    } else if i >= |x| + 1 {
      assert w[i..i + |p|] == y[i - |x| - 1..i - |x| - 1 + |p|];
    } else {
      assert p[|x| - i] == w[|x|];
    }
  }

  /** A space-free word occurs in two texts joined by a space exactly when it occurs in one of them. */
  lemma IncludesJoin(x: string, y: string, p: string)
    requires ' ' !in p
    ensures Includes(x + " " + y, p) <==> Includes(x, p) || Includes(y, p)
  {
    if Includes(x + " " + y, p) {
      IncludesJoinSplit(x, y, p);
    }
    if Includes(x, p) {
      IncludesJoinLeft(x, y, p);
    }
    if Includes(y, p) {
      IncludesJoinRight(x, y, p);
    }
  }

  lemma IncludesJoinSplit(x: string, y: string, p: string)
    requires ' ' !in p && Includes(x + " " + y, p)
    ensures Includes(x, p) || Includes(y, p)
  {
    IncludesIffOccurs(x + " " + y, p);
    var i :| OccursAt(x + " " + y, p, i);
    OccursInJoin(x, y, p, i);
    if OccursAt(x, p, i) {
      OccursIncludes(x, p, i);
    } else {
      OccursIncludes(y, p, i - |x| - 1);
    }
  }

  lemma IncludesJoinLeft(x: string, y: string, p: string)
    requires Includes(x, p)
    ensures Includes(x + " " + y, p)
  {
    var w := x + " " + y;
    IncludesIffOccurs(x, p);
    var i :| OccursAt(x, p, i);
    assert w[i..i + |p|] == x[i..i + |p|];
    OccursIncludes(w, p, i);
  }

  lemma IncludesJoinRight(x: string, y: string, p: string)
    requires Includes(y, p)
    ensures Includes(x + " " + y, p)
  {
    var w := x + " " + y;
    IncludesIffOccurs(y, p);
    var i :| OccursAt(y, p, i);
    assert w[|x| + 1 + i..|x| + 1 + i + |p|] == y[i..i + |p|];
    OccursIncludes(w, p, |x| + 1 + i);
  }

  /** The lower-cased form of one field holds the keyword `Keywords[k]`. */
  predicate FieldHas(field: string, k: nat)
    requires k < |Keywords|
  {
    Includes(Lower(field), Keywords[k])
  }

  /** The lower-cased input is the lower-cased fields joined by spaces. */
  lemma InputTextParts(nombre: string, sintomas: string, antecedentes: string)
    ensures InputText(nombre, sintomas, antecedentes)
            == Lower(nombre) + " " + Lower(sintomas) + " " + Lower(antecedentes)
  {
    LowerAppend(nombre + " " + sintomas + " ", antecedentes);
    LowerAppend(nombre + " " + sintomas, " ");
    LowerAppend(nombre + " ", sintomas);
    LowerAppend(nombre, " ");
    assert Lower(" ") == " ";
  }

  /**
   * Joining the fields cannot create a keyword, since no keyword holds a
   * space: a request is accepted exactly when some field, lower-cased,
   * contains some keyword.
   */
  lemma ValidIffSomeFieldHasKeyword(nombre: string, sintomas: string, antecedentes: string)
    ensures IsValid(nombre, sintomas, antecedentes)
            <==> exists k :: 0 <= k < |Keywords|
                   && (FieldHas(nombre, k) || FieldHas(sintomas, k) || FieldHas(antecedentes, k))
  {
    var n, s, a := Lower(nombre), Lower(sintomas), Lower(antecedentes);
    InputTextParts(nombre, sintomas, antecedentes);
    forall k | 0 <= k < |Keywords|
      ensures Includes(InputText(nombre, sintomas, antecedentes), Keywords[k])
              <==> FieldHas(nombre, k) || FieldHas(sintomas, k) || FieldHas(antecedentes, k)
    {
      KeywordsShape(k);
      IncludesJoin(n + " " + s, a, Keywords[k]);
      IncludesJoin(n, s, Keywords[k]);
    }
  }

  /** Letter case does not matter: upper-casing a field's ASCII and Latin-1 letters changes nothing. */
  lemma ValidIgnoresCase(nombre: string, sintomas: string, antecedentes: string,
                         nombre': string, sintomas': string, antecedentes': string)
    requires Lower(nombre) == Lower(nombre') && Lower(sintomas) == Lower(sintomas')
    requires Lower(antecedentes) == Lower(antecedentes')
    ensures IsValid(nombre, sintomas, antecedentes) <==> IsValid(nombre', sintomas', antecedentes')
  {
    InputTextParts(nombre, sintomas, antecedentes);
    InputTextParts(nombre', sintomas', antecedentes');
  }
}
