/**
 * The closed set of languages the tool accepts (the `Language` enum of
 * word2mp3.py) and the exact-match lookup from a token to a language.
 */
module Languages {
  import opened Optional
  import opened PyStr

  /** The eight members of the enum, in declaration order. */
  datatype Language =
    | English | ChineseTraditional | ChineseSimplified | Japanese
    | Korean | Spanish | French | German

  /** The enum member's value: the code the synthesis service takes. */
  function Code(l: Language): (r: string)
    ensures |r| == 2 || |r| == 5
  {
    match l
    case English => "en"
    case ChineseTraditional => "zh-tw"
    case ChineseSimplified => "zh-cn"
    case Japanese => "ja"
    case Korean => "ko"
    case Spanish => "es"
    case French => "fr"
    case German => "de"
  }

  /** Position in the iteration order of `for l in Language`. */
  function Index(l: Language): (n: nat)
    ensures n < 8 && (n == 0 <==> l == English) && (n == 7 <==> l == German)
  {
    match l
    case English => 0
    case ChineseTraditional => 1
    case ChineseSimplified => 2
    case Japanese => 3
    case Korean => 4
    case Spanish => 5
    case French => 6
    case German => 7
  }

  /** The member after `l` in iteration order. */
  function Next(l: Language): (m: Language)
    requires l != German
    ensures Index(m) == Index(l) + 1
  {
    match l
    case English => ChineseTraditional
    case ChineseTraditional => ChineseSimplified
    case ChineseSimplified => Japanese
    case Japanese => Korean
    case Korean => Spanish
    case Spanish => French
    case French => German
  }

  lemma IndexInjective(l: Language, m: Language)
    requires Index(l) == Index(m)
    ensures l == m
  {
  }

  /** No two languages share a code. */
  lemma CodeInjective(l: Language, m: Language)
    requires Code(l) == Code(m)
    ensures l == m
  {
  }

  /** Every code is a single token of `str.split()` and holds no quote. */
  lemma CodeIsWord(l: Language)
    ensures IsWord(Code(l))
    ensures '"' !in Code(l)
  {
  }

  /** `next(l for l in Language if l.value == tok)` with the iteration
      started at `l`, and `None` for the `StopIteration` case: the first
      language from `l` on whose code is `tok`. */
  function FindFrom(l: Language, tok: string): (r: Option<Language>)
    ensures r.Some? ==> Code(r.value) == tok && Index(l) <= Index(r.value)
    decreases 7 - Index(l)
  {
    if Code(l) == tok then Some(l)
    else if l == German then None
    else FindFrom(Next(l), tok)
  }

  /** The search from `l` comes back empty exactly when no language from
      `l` on has the code `tok`. */
  lemma {:induction false} FindFromNone(l: Language, tok: string)
    ensures FindFrom(l, tok).None? <==> forall m: Language :: Index(l) <= Index(m) ==> Code(m) != tok
    decreases 7 - Index(l)
  {
    if Code(l) != tok && l != German {
      FindFromNone(Next(l), tok);
      forall m: Language | Index(l) <= Index(m) && m != l
        ensures Index(Next(l)) <= Index(m)
      {
        if Index(m) == Index(l) { IndexInjective(l, m); }
      }
    }
    if l == German {
      forall m: Language | Index(l) <= Index(m) ensures m == l {
        IndexInjective(l, m);
      }
    }
  }

  /** Exact, case-sensitive lookup of a token among the supported codes. */
  function Lookup(tok: string): (r: Option<Language>)
    ensures r.Some? ==> Code(r.value) == tok
  {
    FindFrom(English, tok)
  }

  /** The lookup fails exactly when no language has the code `tok`. */
  lemma LookupNone(tok: string)
    ensures Lookup(tok).None? <==> forall l: Language :: Code(l) != tok
  {
    FindFromNone(English, tok);
  }

  /** Whether `tok` is one of the supported codes (`tok in valid_langs`). */
  predicate IsCode(tok: string)
    ensures IsCode(tok) <==> exists l: Language :: Code(l) == tok
  {
    LookupNone(tok);
    Lookup(tok).Some?
  }

  /** Looking up a language's own code finds that language. */
  lemma LookupCode(l: Language)
    ensures Lookup(Code(l)) == Some(l)
  {
    LookupNone(Code(l));
    var r := Lookup(Code(l));
    CodeInjective(r.value, l);
  }
}
