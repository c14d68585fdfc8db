/** What the pieces of a resolver text are, by position, for every text. */
module ResolverText {
  import opened Resolver

  ghost predicate OpensAt(text: string, j: nat) {
    j + 1 < |text| && text[j] == '$' && text[j + 1] == '{'
  }

  ghost predicate OpensNone(text: string, i: nat, e: nat) {
    forall j :: i <= j < e ==> !OpensAt(text, j)
  }

  ghost predicate ClosesNone(text: string, i: nat, e: nat)
    requires e <= |text|
  {
    forall j :: i <= j < e ==> text[j] != '}'
  }

  /** The pieces spell out the text from `i` to its end: literals in which no reference opens, references up
      to the first closing brace, and at the end nothing or a reference that never closes. */
  ghost predicate Spells(ps: Pieces, text: string, i: nat) {
    i <= |text| &&
    match ps
    case End => i == |text|
    case Broken => OpensAt(text, i) && ClosesNone(text, i + 2, |text|)
    case Lit(s, rest) =>
      i + |s| <= |text| && s == text[i..i + |s|] && OpensNone(text, i, i + |s|) && Spells(rest, text, i + |s|)
    case Ref(key, rest) =>
      var e := i + 2 + |key|;
      && OpensAt(text, i) && e < |text| && key == text[i + 2..e] && ClosesNone(text, i + 2, e) && text[e] == '}'
      && Spells(rest, text, e + 1)
  }

  lemma Finds(text: string, i: nat)
    requires i <= |text|
    ensures OpensNone(text, i, FindOpen(text, i)) && (FindOpen(text, i) < |text| ==> OpensAt(text, FindOpen(text, i)))
    ensures ClosesNone(text, i, FindClose(text, i)) && (FindClose(text, i) < |text| ==> text[FindClose(text, i)] == '}')
  {
    FindsTheFirst(text, i);
  }

  lemma SpellsLiteral(text: string, i: nat, e: nat, rest: Pieces)
    requires i <= e <= |text| && OpensNone(text, i, e) && Spells(rest, text, e)
    ensures Spells(Lit(text[i..e], rest), text, i)
  {
  }

  lemma SpellsReference(text: string, i: nat, e: nat, rest: Pieces)
    requires OpensAt(text, i) && i + 2 <= e < |text| && ClosesNone(text, i + 2, e) && text[e] == '}'
    requires Spells(rest, text, e + 1)
    ensures Spells(Ref(text[i + 2..e], rest), text, i)
  {
  }

  /** What stands at `i`, with the rest of the text parsed. */
  lemma ParseStep(text: string, i: nat)
    requires i < |text|
    ensures var open := FindOpen(text, i);
            if open == |text| then Parse(text, i) == Lit(text[i..open], End)
            else
              var close := FindClose(text, open + 2);
              Parse(text, i) == Lit(text[i..open],
                                    if close == |text| then Broken
                                    else Ref(text[open + 2..close], Parse(text, close + 1)))
  {
    if FindOpen(text, i) == |text| { assert text[i..|text|] == text[i..]; }
  }

  /** The pieces of the text from `i` on spell it out. */
  ghost predicate Spelled(text: string, i: nat)
    requires i <= |text|
  {
    Spells(Parse(text, i), text, i)
  }

  /** No further reference closes. */
  lemma LastSpelled(text: string, i: nat)
    requires i < |text| && (FindOpen(text, i) == |text| || FindClose(text, FindOpen(text, i) + 2) == |text|)
    ensures Spelled(text, i)
  {
    var open := FindOpen(text, i);
    ParseStep(text, i);
    Finds(text, i);
    if open == |text| {
      SpellsLiteral(text, i, open, End);
    } else {
      Finds(text, open + 2);
      SpellsLiteral(text, i, open, Broken);
    }
  }

  lemma ReferenceSpells(text: string, i: nat, open: nat, close: nat, rest: Pieces, ps: Pieces)
    requires i <= open && OpensNone(text, i, open) && OpensAt(text, open) && open + 2 <= close < |text|
    requires ClosesNone(text, open + 2, close) && text[close] == '}' && Spells(rest, text, close + 1)
    requires ps == Lit(text[i..open], Ref(text[open + 2..close], rest))
    ensures Spells(ps, text, i)
  {
    SpellsReference(text, open, close, rest);
    SpellsLiteral(text, i, open, Ref(text[open + 2..close], rest));
  }

  lemma ReferenceSpelled(text: string, i: nat, open: nat, close: nat)
    requires i < |text| && open == FindOpen(text, i) < |text| && close == FindClose(text, open + 2) < |text|
    requires Spelled(text, close + 1)
    ensures Spelled(text, i)
  {
    ParseStep(text, i);
    Finds(text, i);
    Finds(text, open + 2);
    ReferenceSpells(text, i, open, close, Parse(text, close + 1), Parse(text, i));
  }

  /** The pieces of every text spell it out. */
  lemma {:induction false} ParseSpells(text: string, i: nat)
    requires i <= |text|
    ensures Spelled(text, i)
    decreases |text| - i
  {
    if i < |text| {
      if FindOpen(text, i) == |text| || FindClose(text, FindOpen(text, i) + 2) == |text| {
        LastSpelled(text, i);
      } else {
        var open := FindOpen(text, i);
        var close := FindClose(text, open + 2);
        ParseSpells(text, close + 1);
        ReferenceSpelled(text, i, open, close);
      }
    }
  }
}
