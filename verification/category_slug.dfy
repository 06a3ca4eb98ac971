/** The URL slug the "add category" panel page derives from a category name:
    lowercase, fold the Turkish letters ğ ü ş ı ö ç to ASCII, turn every other
    character outside a-z and 0-9 into '-', collapse runs of '-', and strip a
    leading and a trailing '-'. */
module CategorySlug {
  import opened Sequences
  import opened Text

  /** The characters a slug keeps as they are. */
  predicate IsKept(c: char) {
    IsAsciiLowerOrDigit(c)
  }

  /** The slug alphabet: kept characters and the separator '-'. */
  predicate InAlphabet(t: string) {
    forall i :: 0 <= i < |t| ==> IsKept(t[i]) || t[i] == '-'
  }

  /** No two consecutive '-'. */
  predicate NoDoubleDash(t: string) {
    forall i :: 0 <= i < |t| - 1 ==> !(t[i] == '-' && t[i + 1] == '-')
  }

  /** Neither the first nor the last character is '-'. */
  predicate NoEdgeDash(t: string) {
    t != [] ==> t[0] != '-' && t[|t| - 1] != '-'
  }

  /** Everything a slug promises. */
  predicate IsSlug(t: string) {
    InAlphabet(t) && NoDoubleDash(t) && NoEdgeDash(t)
  }

  // ---------------------------------------------------------------------------
  // The pipeline: `toLowerCase` and the six letter replacements as one
  // per-character map, then each remaining `replace` as its own step

  /** One of the six Turkish lower-case letters ğ ü ş ı ö ç. */
  predicate IsTurkishLower(c: char) {
    c == '\U{011F}' || c == '\U{00FC}' || c == '\U{015F}' || c == '\U{0131}' || c == '\U{00F6}' || c == '\U{00E7}'
  }

  /** The Turkish lower-case letters ğ ü ş ı ö ç become g u s i o c. */
  function FoldTurkish(c: char): (r: char)
    ensures c == '\U{011F}' ==> r == 'g'
    ensures c == '\U{00FC}' ==> r == 'u'
    ensures c == '\U{015F}' ==> r == 's'
    ensures c == '\U{0131}' ==> r == 'i'
    ensures c == '\U{00F6}' ==> r == 'o'
    ensures c == '\U{00E7}' ==> r == 'c'
    ensures !IsTurkishLower(c) ==> r == c
    ensures IsKept(c) || c == '-' ==> r == c
  {
    if c == '\U{011F}' then 'g'       // ğ
    else if c == '\U{00FC}' then 'u'  // ü
    else if c == '\U{015F}' then 's'  // ş
    else if c == '\U{0131}' then 'i'  // ı
    else if c == '\U{00F6}' then 'o'  // ö
    else if c == '\U{00E7}' then 'c'  // ç
    else c
  }

  /** `name.toLowerCase()` followed by the six Turkish-letter replacements. */
  function Fold(s: string): (r: string)
    ensures |r| == |Lower(s)|
    ensures forall i :: 0 <= i < |r| ==> !IsTurkishLower(r[i])
    ensures forall i :: 0 <= i < |r| && !IsTurkishLower(Lower(s)[i]) ==> r[i] == Lower(s)[i]
  {
    var l := Lower(s);
    seq(|l|, i requires 0 <= i < |l| => FoldTurkish(l[i]))
  }

  /** `.replace(/[^a-z0-9]/g, '-')`. */
  function Mask(t: string): (r: string)
    ensures |r| == |t|
    ensures InAlphabet(r)
    ensures forall i :: 0 <= i < |t| ==> (IsKept(r[i]) <==> IsKept(t[i]))
    ensures forall i :: 0 <= i < |t| && IsKept(t[i]) ==> r[i] == t[i]
  {
    seq(|t|, i requires 0 <= i < |t| => if IsKept(t[i]) then t[i] else '-')
  }

  /** `.replace(/-+/g, '-')`: every run of '-' becomes a single '-'. */
  function Collapse(t: string): (r: string)
    ensures |r| <= |t|
    ensures NoDoubleDash(r)
    ensures InAlphabet(t) ==> InAlphabet(r)
    ensures t != [] ==> r != [] && r[0] == t[0]
    ensures t != [] ==> r[|r| - 1] == t[|t| - 1]
    decreases |t|
  {
    if t == [] then []
    else if |t| >= 2 && t[0] == '-' && t[1] == '-' then Collapse(t[1..])
    else [t[0]] + Collapse(t[1..])
  }

  /** The `^-` alternative: drop one leading '-'. */
  function DropFirstDash(t: string): (r: string)
    ensures t != [] && t[0] == '-' ==> r == t[1..]
    ensures t == [] || t[0] != '-' ==> r == t
  {
    if |t| > 0 && t[0] == '-' then t[1..] else t
  }

  /** The `-$` alternative: drop one trailing '-'. */
  function DropLastDash(t: string): (r: string)
    ensures t != [] && t[|t| - 1] == '-' ==> r == t[..|t| - 1]
    ensures t == [] || t[|t| - 1] != '-' ==> r == t
  {
    if |t| > 0 && t[|t| - 1] == '-' then t[..|t| - 1] else t
  }

  /** `.replace(/^-|-$/g, '')`: drop one leading and one trailing '-'. */
  function Trim(t: string): (r: string)
    ensures InAlphabet(t) ==> InAlphabet(r)
    ensures NoDoubleDash(t) ==> NoDoubleDash(r) && NoEdgeDash(r)
  {
    DropLastDash(DropFirstDash(t))
  }

  /** `generateSlug(name)`. */
  function Slug(s: string): (r: string)
    ensures IsSlug(r)
  {
    Trim(Collapse(Mask(Fold(s))))
  }

  // ---------------------------------------------------------------------------
  // Idempotence

  /** On the slug alphabet, lowercasing and folding change nothing. */
  lemma FoldFixed(t: string)
    requires InAlphabet(t)
    ensures Fold(t) == t
  {
    LowerKeeps(t);
  }

  lemma MaskFixed(t: string)
    requires InAlphabet(t)
    ensures Mask(t) == t
  {
  }

  lemma {:induction false} CollapseFixed(t: string)
    requires NoDoubleDash(t)
    ensures Collapse(t) == t
    decreases |t|
  {
    if t != [] {
      CollapseFixed(t[1..]);
    }
  }

  lemma TrimFixed(t: string)
    requires NoEdgeDash(t)
    ensures Trim(t) == t
  {
  }

  /** Generating the slug of a slug gives the same slug. */
  lemma SlugIdempotent(s: string)
    ensures Slug(Slug(s)) == Slug(s)
  {
    var r := Slug(s);
    FoldFixed(r);
    MaskFixed(r);
    CollapseFixed(r);
    TrimFixed(r);
  }

  // ---------------------------------------------------------------------------
  // Reference definition: the words of the name joined with single dashes

  /** The pieces of `t` between its non-kept characters, empty pieces included
      (a split at every character outside a-z0-9). */
  function Pieces(t: string): (r: seq<string>)
    ensures |r| >= 1
    ensures forall k, j :: 0 <= k < |r| && 0 <= j < |r[k]| ==> IsKept(r[k][j])
    decreases |t|
  {
    if t == [] then [[]]
    else
      var rest := Pieces(t[1..]);
      if IsKept(t[0]) then [[t[0]] + rest[0]] + rest[1..] else [[]] + rest
  }

  function NonEmpty(p: string): bool {
    p != []
  }

  /** The maximal runs of kept characters of `t`, in order. */
  function Words(t: string): seq<string> {
    Filter(NonEmpty, Pieces(t))
  }

  /** The words joined with single dashes. */
  function Join(ws: seq<string>): string
    decreases |ws|
  {
    if ws == [] then []
    else if |ws| == 1 then ws[0]
    else ws[0] + "-" + Join(ws[1..])
  }

  /** Joining puts a dash between the first word and the join of the rest. */
  lemma JoinCons(w: string, ws: seq<string>)
    requires ws != []
    ensures Join([w] + ws) == w + "-" + Join(ws)
  {
    assert ([w] + ws)[1..] == ws;
  }

  /** Prefixing a character to the first word prefixes it to the join. */
  lemma JoinExtendFirst(c: char, ws: seq<string>)
    requires ws != []
    ensures Join([[c] + ws[0]] + ws[1..]) == [c] + Join(ws)
  {
    var w, more := ws[0], ws[1..];
    assert ws == [w] + more;
    if more == [] {
      assert [[c] + w] + more == [[c] + w];
    } else {
      var j := Join(more);
      JoinCons([c] + w, more);
      JoinCons(w, more);
      assert ([c] + w) + "-" + j == [c] + (w + "-" + j);
    }
  }

  /** Splitting a string over the slug alphabet at its dashes and joining the
      pieces back with dashes restores it. */
  lemma {:induction false} JoinPieces(t: string)
    requires InAlphabet(t)
    ensures Join(Pieces(t)) == t
    decreases |t|
  {
    if t != [] {
      var tail := t[1..];
      assert InAlphabet(tail) by {
        forall i | 0 <= i < |tail| ensures IsKept(tail[i]) || tail[i] == '-' {
          assert tail[i] == t[i + 1];
        }
      }
      var rest := Pieces(tail);
      JoinPieces(tail);
      assert t == [t[0]] + tail;
      if IsKept(t[0]) {
        JoinExtendFirst(t[0], rest);
      } else {
        JoinCons([], rest);
      }
    }
  }

  /** In a string without double dashes and without a trailing dash, every piece
      after the first is non-empty, and the first is empty exactly when the string
      starts with a dash. */
  lemma {:induction false} PiecesNonEmpty(t: string)
    requires InAlphabet(t) && NoDoubleDash(t)
    requires t != [] ==> t[|t| - 1] != '-'
    ensures forall k :: 1 <= k < |Pieces(t)| ==> Pieces(t)[k] != []
    ensures t != [] ==> (Pieces(t)[0] == [] <==> t[0] == '-')
    decreases |t|
  {
    if t != [] {
      PiecesNonEmpty(t[1..]);
    }
  }

  /** A slug is the join of its own words. */
  lemma SlugIsJoinOfWords(t: string)
    requires IsSlug(t)
    ensures Join(Words(t)) == t
  {
    JoinPieces(t);
    PiecesNonEmpty(t);
    if t == [] {
      assert Pieces(t) == [[]];
      assert Words(t) == [];
    } else {
      FilterAll(NonEmpty, Pieces(t));
    }
  }

  /** Masking does not move the boundaries between kept and other characters. */
  lemma {:induction false} PiecesMask(t: string)
    ensures Pieces(Mask(t)) == Pieces(t)
    decreases |t|
  {
    if t != [] {
      assert Mask(t)[1..] == Mask(t[1..]);
      PiecesMask(t[1..]);
    }
  }

  /** Cutting the first piece off the words. */
  lemma WordsSplit(t: string)
    ensures Words(t) == Filter(NonEmpty, [Pieces(t)[0]]) + Filter(NonEmpty, Pieces(t)[1..])
  {
    assert Pieces(t) == [Pieces(t)[0]] + Pieces(t)[1..];
    FilterConcat(NonEmpty, [Pieces(t)[0]], Pieces(t)[1..]);
  }

  /** Collapsing keeps the first piece and the non-empty later pieces. */
  lemma {:induction false} PiecesCollapse(t: string)
    ensures Pieces(Collapse(t))[0] == Pieces(t)[0]
    ensures Filter(NonEmpty, Pieces(Collapse(t))[1..]) == Filter(NonEmpty, Pieces(t)[1..])
    decreases |t|
  {
    if t != [] {
      var u := t[1..];
      if |t| >= 2 && t[0] == '-' && t[1] == '-' {
        PiecesCollapse(u);
        assert Pieces(t) == [[]] + Pieces(u);
        WordsSplit(u);
      } else {
        PiecesCollapse(u);
        var c := Collapse(u);
        assert Collapse(t) == [t[0]] + c;
        assert ([t[0]] + c)[1..] == c;
        if !IsKept(t[0]) {
          WordsSplit(u);
          WordsSplit(c);
        }
      }
    }
  }

  lemma WordsCollapse(t: string)
    ensures Words(Collapse(t)) == Words(t)
  {
    PiecesCollapse(t);
    WordsSplit(t);
    WordsSplit(Collapse(t));
  }

  /** A trailing separator adds one empty piece at the end. */
  lemma {:induction false} PiecesTrailing(t: string)
    ensures Pieces(t + "-") == Pieces(t) + [[]]
    decreases |t|
  {
    if t == [] {
      assert Pieces("-") == [[]] + Pieces([]);
    } else {
      assert (t + "-")[1..] == t[1..] + "-";
      PiecesTrailing(t[1..]);
    }
  }

  /** A leading separator adds no word. */
  lemma WordsLeadingDash(a: string)
    ensures Words("-" + a) == Words(a)
  {
    assert ("-" + a)[1..] == a;
    assert Pieces("-" + a) == [[]] + Pieces(a);
    FilterConcat(NonEmpty, [[]], Pieces(a));
    assert Filter(NonEmpty, [[]]) == [];
  }

  /** A trailing separator adds no word. */
  lemma WordsTrailingDash(b: string)
    ensures Words(b + "-") == Words(b)
  {
    PiecesTrailing(b);
    FilterConcat(NonEmpty, Pieces(b), [[]]);
    assert Filter(NonEmpty, [[]]) == [];
  }

  /** Dropping one leading '-' keeps the words. */
  lemma WordsDropFirst(t: string)
    ensures Words(DropFirstDash(t)) == Words(t)
  {
    if |t| > 0 && t[0] == '-' {
      var a := t[1..];
      assert t == "-" + a;
      WordsLeadingDash(a);
    }
  }

  /** Dropping one trailing '-' keeps the words. */
  lemma WordsDropLast(a: string)
    ensures Words(DropLastDash(a)) == Words(a)
  {
    if |a| > 0 && a[|a| - 1] == '-' {
      var b := a[..|a| - 1];
      assert a == b + "-";
      WordsTrailingDash(b);
    }
  }

  lemma WordsTrim(t: string)
    ensures Words(Trim(t)) == Words(t)
  {
    WordsDropFirst(t);
    WordsDropLast(DropFirstDash(t));
  }

  /** The slug is exactly the maximal runs of letters and digits of the folded
      name, in their original order, joined with single dashes: every run of
      other characters between two such runs becomes one '-', and runs at the
      edges vanish. */
  lemma SlugIsWordsJoined(s: string)
    ensures Slug(s) == Join(Words(Fold(s)))
  {
    var m := Mask(Fold(s));
    var c := Collapse(m);
    PiecesMask(Fold(s));
    WordsCollapse(m);
    WordsTrim(c);
    SlugIsJoinOfWords(Slug(s));
  }

  // ---------------------------------------------------------------------------
  // Turkish letters

  /** Upper- and lower-case ğ ü ş ı ö ç (and İ) fold to ASCII letters; the
      combining dot that lowercasing İ leaves behind is outside a-z0-9. */
  lemma TurkishLetters()
    ensures Fold("\U{011E}\U{011F}") == "gg"
    ensures Fold("\U{00DC}\U{00FC}") == "uu"
    ensures Fold("\U{015E}\U{015F}") == "ss"
    ensures Fold("\U{0131}") == "i"
    ensures Fold("\U{00D6}\U{00F6}") == "oo"
    ensures Fold("\U{00C7}\U{00E7}") == "cc"
    ensures Fold("\U{0130}") == ['i', CombiningDot] && !IsKept(CombiningDot)
  {
    assert Lower("\U{011E}\U{011F}") == "\U{011F}\U{011F}";
    assert Lower("\U{00DC}\U{00FC}") == "\U{00FC}\U{00FC}";
    assert Lower("\U{015E}\U{015F}") == "\U{015F}\U{015F}";
    assert Lower("\U{0131}") == "\U{0131}";
    assert Lower("\U{00D6}\U{00F6}") == "\U{00F6}\U{00F6}";
    assert Lower("\U{00C7}\U{00E7}") == "\U{00E7}\U{00E7}";
    assert Lower("\U{0130}") == ['i', CombiningDot];
  }

  /** Lowercasing and folding "Çağ Öğün" gives "cag ogun". */
  lemma FoldExample(s: string)
    requires s == "\U{00C7}a\U{011F} \U{00D6}\U{011F}\U{00FC}n"
    ensures Fold(s) == "cag ogun"
  {
    LowerPointwise(s);
    var f := Fold(s);
    assert f[0] == FoldTurkish(LowerChar(s[0])[0]) == 'c';
    assert f[1] == FoldTurkish(LowerChar(s[1])[0]) == 'a';
    assert f[2] == FoldTurkish(LowerChar(s[2])[0]) == 'g';
    assert f[3] == FoldTurkish(LowerChar(s[3])[0]) == ' ';
    assert f[4] == FoldTurkish(LowerChar(s[4])[0]) == 'o';
    assert f[5] == FoldTurkish(LowerChar(s[5])[0]) == 'g';
    assert f[6] == FoldTurkish(LowerChar(s[6])[0]) == 'u';
    assert f[7] == FoldTurkish(LowerChar(s[7])[0]) == 'n';
  }

  /** Masking "cag ogun" turns the space into a dash. */
  lemma MaskExample()
    ensures Mask("cag ogun") == "cag-ogun"
  {
    var m := Mask("cag ogun");
    forall i | 0 <= i < 8 ensures m[i] == "cag-ogun"[i] {
    }
  }

  /** "Çağ Öğün" becomes "cag-ogun". */
  lemma SlugExample(s: string)
    requires s == "\U{00C7}a\U{011F} \U{00D6}\U{011F}\U{00FC}n"
    ensures Slug(s) == "cag-ogun"
  {
    FoldExample(s);
    MaskExample();
    var m := "cag-ogun";
    assert NoDoubleDash(m) && NoEdgeDash(m);
    CollapseFixed(m);
    TrimFixed(m);
  }

  // ---------------------------------------------------------------------------
  // The form

  /** The slug field of the "add category" form; the name input itself is uncontrolled. */
  datatype CategoryForm = CategoryForm(slug: string)

  /** `handleNameChange`: typing a name replaces the slug with the name's slug. */
  function NameChanged(form: CategoryForm, name: string): (r: CategoryForm)
    ensures IsSlug(r.slug)
    ensures r.slug == Join(Words(Fold(name)))
  {
    SlugIsWordsJoined(name);
    CategoryForm(Slug(name))
  }
}
