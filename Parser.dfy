/**
 * `parse_transaction` (db.py): pulls the labelled fields of a transaction out
 * of the language model's reply. Four independent searches, one per marker;
 * any failure anywhere yields None, never a partial record. The date is the
 * processing date, passed in as `today`, never read from the text.
 */
module TransactionParser {

  import opened Wrappers
  import opened Text
  import opened Dates

  // The four labels, code point for code point (the category emoji carries
  // the variation selector U+FE0F).
  const TipoMarker: string := "\U{1F4B8} Tipo: "
  const ItemMarker: string := "\U{1F9FE} Item: "
  const CategoriaMarker: string := "\U{1F5C2}\U{FE0F} Categoria: "
  const ValorMarker: string := "\U{1F4B0} Valor: R$ "

  /** The group each pattern captures after its marker: `(.+)` or `([\d\.,]+)`. */
  datatype Group = RestOfLine | AmountRun

  predicate Admits(g: Group, c: char)
  {
    match g
    case RestOfLine => c != '\n'
    case AmountRun => IsDigit(c) || c == '.' || c == ','
  }

  /** The pattern "marker, then one or more characters of g" matches at position i. */
  predicate MatchAt(text: string, marker: string, g: Group, i: nat)
  {
    i + |marker| < |text| && text[i..i + |marker|] == marker && Admits(g, text[i + |marker|])
  }

  predicate Occurs(text: string, marker: string, g: Group)
  {
    exists i: nat | i < |text| :: MatchAt(text, marker, g, i)
  }

  function SearchFrom(text: string, marker: string, g: Group, from: nat): (r: Option<nat>)
    ensures r.Some? ==> from <= r.value && MatchAt(text, marker, g, r.value)
    ensures forall j: nat :: from <= j && (r.None? || j < r.value) ==> !MatchAt(text, marker, g, j)
    decreases |text| - from
  {
    if |text| <= from + |marker| then None
    else if MatchAt(text, marker, g, from) then Some(from)
    else SearchFrom(text, marker, g, from + 1)
  }

  /** `re.search`: the leftmost position at which the pattern matches. */
  function Search(text: string, marker: string, g: Group): (r: Option<nat>)
    ensures r.Some? <==> Occurs(text, marker, g)
    ensures r.Some? ==> MatchAt(text, marker, g, r.value)
    ensures forall j: nat :: (r.None? || j < r.value) ==> !MatchAt(text, marker, g, j)
  {
    SearchFrom(text, marker, g, 0)
  }

  /** The greedy `+`: the longest prefix of s made of characters of g. */
  function Span(s: string, g: Group): (r: string)
    ensures |r| <= |s| && r == s[..|r|]
    ensures forall k :: 0 <= k < |r| ==> Admits(g, r[k])
    ensures |r| == |s| || !Admits(g, s[|r|])
  {
    if s == [] || !Admits(g, s[0]) then [] else [s[0]] + Span(s[1..], g)
  }

  /** `.group(1)` of the search: what the group captured at the leftmost match. */
  function Captured(text: string, marker: string, g: Group): (r: Option<string>)
    ensures r.Some? <==> Occurs(text, marker, g)
    ensures r.Some? ==> r.value != [] && forall k :: 0 <= k < |r.value| ==> Admits(g, r.value[k])
  {
    match Search(text, marker, g)
    case None => None
    case Some(i) => Some(Span(text[i + |marker|..], g))
  }

  function StripLeading(s: string): (r: string)
    ensures |r| <= |s| && r == s[|s| - |r|..] && AllSpace(s[..|s| - |r|])
    ensures r != [] ==> !IsSpace(r[0])
  {
    if s != [] && IsSpace(s[0]) then
      var r := StripLeading(s[1..]);
      assert AllSpace(s[..|s| - |r|]) by {
        forall k | 0 < k < |s| - |r| ensures IsSpace(s[k]) {
          assert s[k] == s[1..][..|s| - 1 - |r|][k - 1];
        }
      }
      r
    else s
  }

  function StripTrailing(s: string): (r: string)
    ensures |r| <= |s| && r == s[..|r|] && AllSpace(s[|r|..])
    ensures r != [] ==> !IsSpace(r[|r| - 1])
  {
    if s != [] && IsSpace(s[|s| - 1]) then
      var r := StripTrailing(s[..|s| - 1]);
      assert AllSpace(s[|r|..]) by {
        forall k | 0 <= k < |s| - 1 - |r| ensures IsSpace(s[|r|..][k]) {
          assert s[|r|..][k] == s[..|s| - 1][|r|..][k];
        }
      }
      r
    else s
  }

  /** How many characters `strip()` removes from the front of s. */
  function Lead(s: string): nat
  {
    |s| - |StripLeading(s)|
  }

  /** `str.strip()`: s without its leading and trailing whitespace. */
  function Strip(s: string): (r: string)
    ensures Lead(s) + |r| <= |s| && r == s[Lead(s)..Lead(s) + |r|]
    ensures AllSpace(s[..Lead(s)]) && AllSpace(s[Lead(s) + |r|..])
    ensures r != [] ==> !IsSpace(r[0]) && !IsSpace(r[|r| - 1])
  {
    var left := StripLeading(s);
    var r := StripTrailing(left);
    StripParts(s, left, r);
    r
  }

  /** Whitespace before a suffix, and after a prefix of that suffix, surrounds the prefix in s. */
  lemma StripParts(s: string, left: string, r: string)
    requires |left| <= |s| && left == s[|s| - |left|..] && AllSpace(s[..|s| - |left|])
    requires |r| <= |left| && r == left[..|r|] && AllSpace(left[|r|..])
    ensures r == s[|s| - |left|..|s| - |left| + |r|]
    ensures AllSpace(s[..|s| - |left|]) && AllSpace(s[|s| - |left| + |r|..])
  {
    assert s[|s| - |left| + |r|..] == left[|r|..];
  }

  /** Stripping only removes characters: what the line lacks, the field lacks. */
  lemma StripKeepsOut(s: string, c: char)
    requires c !in s
    ensures c !in Strip(s)
  {
    var r := Strip(s);
    forall k | 0 <= k < |r| ensures r[k] != c {
      assert r[k] == s[Lead(s) + k];
    }
  }

  /** A text field: `re.search(marker + "(.+)", text).group(1).strip()`. */
  function Label(text: string, marker: string): (r: Option<string>)
    ensures r.Some? <==> Occurs(text, marker, RestOfLine)
    ensures r.Some? ==> '\n' !in r.value
    ensures r.Some? && r.value != [] ==> !IsSpace(r.value[0]) && !IsSpace(r.value[|r.value| - 1])
  {
    match Captured(text, marker, RestOfLine)
    case None => None
    case Some(line) =>
      assert '\n' !in line by {
        forall k | 0 <= k < |line| ensures line[k] != '\n' {
          assert Admits(RestOfLine, line[k]);
        }
      }
      StripKeepsOut(line, '\n');
      Some(Strip(line))
  }

  /** `str.replace(",", ".")`. */
  function CommasToPoints(s: string): (r: string)
    ensures |r| == |s|
    ensures forall k :: 0 <= k < |s| ==> r[k] == if s[k] == ',' then '.' else s[k]
  {
    if s == [] then [] else [if s[0] == ',' then '.' else s[0]] + CommasToPoints(s[1..])
  }

  function Points(s: string): nat
  {
    multiset(s)['.']
  }

  /** Every decimal separator of an amount, before the commas are rewritten. */
  function Separators(s: string): nat
  {
    multiset(s)['.'] + multiset(s)[',']
  }

  function IndexOf(s: string, c: char): (r: Option<nat>)
    ensures r.Some? ==> r.value < |s| && s[r.value] == c && c !in s[..r.value]
    ensures r.None? ==> c !in s
  {
    if s == [] then None
    else if s[0] == c then Some(0)
    else match IndexOf(s[1..], c)
      case None => None
      case Some(k) => assert s[..k + 1] == [s[0]] + s[1..][..k]; Some(k + 1)
  }

  predicate PointAt(s: string, k: int)
  {
    0 <= k < |s| && s[k] == '.'
  }

  predicate SeparatorAt(run: string, k: int)
  {
    0 <= k < |run| && (run[k] == '.' || run[k] == ',')
  }

  predicate DigitsAndPoints(s: string)
  {
    forall k :: 0 <= k < |s| ==> IsDigit(s[k]) || s[k] == '.'
  }

  /** An exact decimal number: `units` scaled down by `scale` decimal places. */
  datatype Decimal = Decimal(units: nat, scale: nat)

  /**
   * The real number a decimal stands for. It is never negative: AmountOf's
   * contract gives every amount's units as the reading of a digit string,
   * because the amount pattern admits no sign.
   */
  function Value(d: Decimal): (v: real)
    ensures v >= 0.0
  {
    d.units as real / Pow10(d.scale) as real
  }

  /**
   * Python's `float()` on a string of digits and points, the only strings the
   * amount pattern can hand it: it succeeds exactly when there is a digit and
   * at most one point, and then the value is the digits read as one integer,
   * scaled down by the number of digits after the point.
   */
  function ToFloat(s: string): (r: Option<Decimal>)
    requires DigitsAndPoints(s)
    ensures r.Some? <==> Points(s) <= 1 && Points(s) < |s|
    ensures r.Some? && '.' !in s ==> AllDigits(s) && r.value == Decimal(Number(s), 0)
    ensures forall k {:trigger PointAt(s, k)} :: PointAt(s, k) && r.Some? ==>
      AllDigits(s[..k] + s[k + 1..]) && r.value == Decimal(Number(s[..k] + s[k + 1..]), |s| - k - 1)
  {
    if Points(s) > 1 || Points(s) == |s| then None
    else match IndexOf(s, '.')
      case None =>
        Some(Decimal(Number(s), 0))
      case Some(k) =>
        PointIsUnique(s, k);
        var whole, fraction := s[..k], s[k + 1..];
        NumberAppend(whole, fraction);
        Some(Decimal(Number(whole) * Pow10(|fraction|) + Number(fraction), |fraction|))
  }

  /**
   * The captured run converted: `float(run.replace(",", "."))`. It succeeds
   * exactly when the run has a digit and at most one separator, and its value
   * is then the run's digits read as one integer, scaled down by the number
   * of digits after the separator, whether that is a point or a comma.
   */
  function AmountOf(run: string): (r: Option<Decimal>)
    requires AmountChars(run)
    ensures r.Some? <==> WellFormedAmount(run)
    ensures r.Some? && '.' !in run && ',' !in run ==> AllDigits(run) && r.value == Decimal(Number(run), 0)
    ensures forall k {:trigger SeparatorAt(run, k)} :: SeparatorAt(run, k) && r.Some? ==>
      AllDigits(run[..k] + run[k + 1..]) && r.value == Decimal(Number(run[..k] + run[k + 1..]), |run| - k - 1)
  {
    ConvertedRun(run);
    ToFloat(CommasToPoints(run))
  }

  /** The amount: `float(re.search(ValorMarker + "([\d\.,]+)", text).group(1).replace(",", "."))`. */
  function Amount(text: string): (r: Option<Decimal>)
    ensures r.Some? <==> Captured(text, ValorMarker, AmountRun).Some? && WellFormedAmount(Captured(text, ValorMarker, AmountRun).value)
  {
    match Captured(text, ValorMarker, AmountRun)
    case None => None
    case Some(run) => AmountOf(run)
  }

  predicate AmountChars(run: string)
  {
    forall k :: 0 <= k < |run| ==> Admits(AmountRun, run[k])
  }

  /** A captured run of digits, points and commas converts exactly when it has a digit and one separator at most. */
  predicate WellFormedAmount(run: string)
  {
    Separators(run) <= 1 && Separators(run) < |run|
  }

  /** What `parse_transaction` returns when it does not return None. */
  datatype Transaction = Transaction(tipo: string, descricao: string, categoria: string, valor: Decimal, data: string)

  /** `parse_transaction(text)`, run on the day `today`. */
  function ParseTransaction(text: string, today: Date): (r: Option<Transaction>)
    requires Valid(today)
    ensures r.Some? <==>
      && Occurs(text, TipoMarker, RestOfLine)
      && Occurs(text, ItemMarker, RestOfLine)
      && Occurs(text, CategoriaMarker, RestOfLine)
      && Amount(text).Some?
    ensures r.Some? ==>
      && Some(r.value.tipo) == Label(text, TipoMarker)
      && Some(r.value.descricao) == Label(text, ItemMarker)
      && Some(r.value.categoria) == Label(text, CategoriaMarker)
      && Some(r.value.valor) == Amount(text)
      && r.value.data == IsoDate(today)
  {
    match (Label(text, TipoMarker), Label(text, ItemMarker), Label(text, CategoriaMarker), Amount(text))
    case (Some(tipo), Some(descricao), Some(categoria), Some(valor)) =>
      Some(Transaction(tipo, descricao, categoria, valor, IsoDate(today)))
    case _ => None
  }

  // ---------------------------------------------------------------------------
  // Lemmas about the amount conversion

  lemma TwoPoints(s: string, i: nat, j: nat)
    requires i < j < |s| && s[i] == '.' && s[j] == '.'
    ensures Points(s) >= 2
  {
    assert s == s[..j] + s[j..];
    assert multiset(s) == multiset(s[..j]) + multiset(s[j..]);
    assert s[..j][i] == '.' && s[j..][0] == '.';
  }

  /** With at most one point, the point at k is the only one, and digits surround it. */
  lemma PointIsUnique(s: string, k: nat)
    requires DigitsAndPoints(s) && Points(s) <= 1
    requires k < |s| && s[k] == '.'
    ensures forall j :: PointAt(s, j) ==> j == k
    ensures AllDigits(s[..k]) && AllDigits(s[k + 1..])
  {
    forall j | PointAt(s, j)
      ensures j == k
    {
      if j < k {
        TwoPoints(s, j, k);
      } else if k < j {
        TwoPoints(s, k, j);
      }
    }
    assert AllDigits(s[..k]) by {
      forall i | 0 <= i < k ensures IsDigit(s[..k][i]) {
        assert !PointAt(s, i);
      }
    }
    assert AllDigits(s[k + 1..]) by {
      forall i | k < i < |s| ensures IsDigit(s[i]) {
        assert !PointAt(s, i);
      }
    }
  }

  lemma ConvertedRun(run: string)
    requires AmountChars(run)
    ensures DigitsAndPoints(CommasToPoints(run))
    ensures ToFloat(CommasToPoints(run)).Some? <==> WellFormedAmount(run)
    ensures ToFloat(CommasToPoints(run)).Some? && '.' !in run && ',' !in run ==>
      AllDigits(run) && ToFloat(CommasToPoints(run)).value == Decimal(Number(run), 0)
    ensures forall k {:trigger SeparatorAt(run, k)} :: SeparatorAt(run, k) && ToFloat(CommasToPoints(run)).Some? ==>
      AllDigits(run[..k] + run[k + 1..])
      && ToFloat(CommasToPoints(run)).value == Decimal(Number(run[..k] + run[k + 1..]), |run| - k - 1)
  {
    var s := CommasToPoints(run);
    RewrittenRunChars(run);
    assert ToFloat(s).Some? <==> WellFormedAmount(run) by {
      SeparatorsBecomePoints(run);
    }
    assert ToFloat(s).Some? && '.' !in run && ',' !in run ==> AllDigits(run) && ToFloat(s).value == Decimal(Number(run), 0) by {
      if '.' !in run && ',' !in run {
        RewriteWithoutSeparators(run);
      }
    }
    forall k | SeparatorAt(run, k) && ToFloat(s).Some?
      ensures AllDigits(run[..k] + run[k + 1..])
      ensures ToFloat(s).value == Decimal(Number(run[..k] + run[k + 1..]), |run| - k - 1)
    {
      ConvertedRunAt(run, k);
    }
  }

  /** Once commas are rewritten, a run of the amount pattern holds only digits and points. */
  lemma RewrittenRunChars(run: string)
    requires AmountChars(run)
    ensures DigitsAndPoints(CommasToPoints(run))
  {
    var s := CommasToPoints(run);
    forall k | 0 <= k < |s| ensures IsDigit(s[k]) || s[k] == '.' {
      assert Admits(AmountRun, run[k]);
    }
  }

  /** A run without separators is left as it is by the rewrite. */
  lemma RewriteWithoutSeparators(run: string)
    requires '.' !in run && ',' !in run
    ensures CommasToPoints(run) == run
  {
  }

  lemma ConvertedRunAt(run: string, k: nat)
    requires AmountChars(run) && DigitsAndPoints(CommasToPoints(run))
    requires SeparatorAt(run, k) && ToFloat(CommasToPoints(run)).Some?
    ensures AllDigits(run[..k] + run[k + 1..])
    ensures ToFloat(CommasToPoints(run)).value == Decimal(Number(run[..k] + run[k + 1..]), |run| - k - 1)
  {
    var s := CommasToPoints(run);
    assert PointAt(s, k);
    DigitsUnchanged(run, s, k);
  }

  /** Where the rewritten run is all digits, rewriting commas changed nothing. */
  lemma DigitsUnchanged(run: string, s: string, k: nat)
    requires |s| == |run| && k < |s|
    requires forall i :: 0 <= i < |run| ==> s[i] == if run[i] == ',' then '.' else run[i]
    requires AllDigits(s[..k] + s[k + 1..])
    ensures s[..k] + s[k + 1..] == run[..k] + run[k + 1..]
  {
    var digits := s[..k] + s[k + 1..];
    forall i | 0 <= i < |digits| ensures digits[i] == (run[..k] + run[k + 1..])[i] {
      var j := if i < k then i else i + 1;
      assert digits[i] == s[j] && IsDigit(s[j]);
    }
  }

  lemma {:induction false} SeparatorsBecomePoints(s: string)
    ensures Points(CommasToPoints(s)) == Separators(s)
    ensures Separators(CommasToPoints(s)) == Separators(s)
  {
    if s != [] {
      var r := CommasToPoints(s);
      assert s == [s[0]] + s[1..];
      assert r == [r[0]] + CommasToPoints(s[1..]);
      SeparatorsBecomePoints(s[1..]);
    }
  }

  // ---------------------------------------------------------------------------
  // Lemmas about searching a reply made of several lines

  /** The leftmost match is the one Search reports. */
  lemma SearchIsLeftmost(text: string, marker: string, g: Group, i: nat)
    requires MatchAt(text, marker, g, i)
    requires forall j: nat :: j < i ==> !MatchAt(text, marker, g, j)
    ensures Search(text, marker, g) == Some(i)
  {
  }

  /** A match that starts before a line break lies wholly in the text before it, since no marker contains a line break. */
  lemma MatchBeforeBreak(a: string, b: string, marker: string, g: Group, j: nat)
    requires '\n' !in marker && j <= |a|
    ensures MatchAt(a + "\n" + b, marker, g, j) <==> MatchAt(a, marker, g, j)
  {
    var t := a + "\n" + b;
    var e := j + |marker|;
    if e < |a| {
      assert t[j..e] == a[j..e];
    } else if |a| < e < |t| {
      assert t[j..e][|a| - j] == '\n';
    }
  }

  /** A match that starts after the line break is a match in the text after it. */
  lemma MatchAfterBreak(a: string, b: string, marker: string, g: Group, j: nat)
    requires |a| < j
    ensures MatchAt(a + "\n" + b, marker, g, j) <==> MatchAt(b, marker, g, j - |a| - 1)
  {
    var t := a + "\n" + b;
    var k := j - |a| - 1;
    if j + |marker| < |t| {
      assert t[j..j + |marker|] == b[k..k + |marker|];
    }
  }

  /** The capture of `.+` or `[\d\.,]+` ends at the first line break. */
  lemma {:induction false} SpanStopsAtBreak(x: string, y: string, g: Group)
    ensures Span(x + "\n" + y, g) == Span(x, g)
  {
    var s := x + "\n" + y;
    if x == [] {
      assert s[0] == '\n';
    } else if Admits(g, x[0]) {
      assert s[0] == x[0] && s[1..] == x[1..] + "\n" + y;
      SpanStopsAtBreak(x[1..], y, g);
    } else {
      assert s[0] == x[0];
    }
  }

  lemma CapturedInJoinFirst(a: string, b: string, marker: string, g: Group, i: nat)
    requires '\n' !in marker && Search(a, marker, g) == Some(i)
    ensures Captured(a + "\n" + b, marker, g) == Captured(a, marker, g)
  {
    var t := a + "\n" + b;
    assert Search(t, marker, g) == Some(i) by {
      MatchBeforeBreak(a, b, marker, g, i);
      forall j: nat | j < i
        ensures !MatchAt(t, marker, g, j)
      {
        MatchBeforeBreak(a, b, marker, g, j);
      }
      SearchIsLeftmost(t, marker, g, i);
    }
    var rest := a[i + |marker|..];
    assert t[i + |marker|..] == rest + "\n" + b;
    SpanStopsAtBreak(rest, b, g);
    CapturedAt(t, marker, g, i);
    CapturedAt(a, marker, g, i);
  }

  lemma CapturedAt(text: string, marker: string, g: Group, i: nat)
    requires Search(text, marker, g) == Some(i)
    ensures i + |marker| < |text|
    ensures Captured(text, marker, g) == Some(Span(text[i + |marker|..], g))
  {
  }

  lemma CapturedInJoinSecond(a: string, b: string, marker: string, g: Group, k: nat)
    requires '\n' !in marker && Search(a, marker, g).None? && Search(b, marker, g) == Some(k)
    ensures Captured(a + "\n" + b, marker, g) == Captured(b, marker, g)
  {
    var t := a + "\n" + b;
    var i := |a| + 1 + k;
    assert Search(t, marker, g) == Some(i) by {
      MatchAfterBreak(a, b, marker, g, i);
      forall j: nat | j < i
        ensures !MatchAt(t, marker, g, j)
      {
        if j > |a| {
          MatchAfterBreak(a, b, marker, g, j);
        } else {
          MatchBeforeBreak(a, b, marker, g, j);
        }
      }
      SearchIsLeftmost(t, marker, g, i);
    }
    assert t[i + |marker|..] == b[k + |marker|..];
    CapturedAt(t, marker, g, i);
    CapturedAt(b, marker, g, k);
  }

  lemma CapturedInJoinNeither(a: string, b: string, marker: string, g: Group)
    requires '\n' !in marker && Search(a, marker, g).None? && Search(b, marker, g).None?
    ensures Captured(a + "\n" + b, marker, g).None?
  {
    var t := a + "\n" + b;
    forall j: nat ensures !MatchAt(t, marker, g, j) {
      if j > |a| {
        MatchAfterBreak(a, b, marker, g, j);
      } else {
        MatchBeforeBreak(a, b, marker, g, j);
      }
    }
  }

  /**
   * Searching a reply whose lines are split in two at a line break finds the
   * first block's capture when the first block has a match, and the second
   * block's otherwise.
   */
  lemma CapturedInJoin(a: string, b: string, marker: string, g: Group)
    requires '\n' !in marker
    ensures Captured(a + "\n" + b, marker, g) ==
      if Occurs(a, marker, g) then Captured(a, marker, g) else Captured(b, marker, g)
  {
    match Search(a, marker, g) {
      case Some(i) => CapturedInJoinFirst(a, b, marker, g, i);
      case None =>
        match Search(b, marker, g) {
          case Some(k) => CapturedInJoinSecond(a, b, marker, g, k);
          case None => CapturedInJoinNeither(a, b, marker, g);
        }
    }
  }

  lemma MarkersHaveNoBreak()
    ensures '\n' !in TipoMarker && '\n' !in ItemMarker && '\n' !in CategoriaMarker && '\n' !in ValorMarker
  {
  }

  /** Which of the four searches finds its marker in `text`. */
  predicate HasTipo(text: string) { Occurs(text, TipoMarker, RestOfLine) }
  predicate HasItem(text: string) { Occurs(text, ItemMarker, RestOfLine) }
  predicate HasCategoria(text: string) { Occurs(text, CategoriaMarker, RestOfLine) }
  predicate HasValor(text: string) { Occurs(text, ValorMarker, AmountRun) }

  /** No marker pattern finds a match in `text`: a line such as "📅 Data: ..." or "💡 Dica: ...". */
  predicate Unmarked(text: string)
  {
    !HasTipo(text) && !HasItem(text) && !HasCategoria(text) && !HasValor(text)
  }

  lemma CapturesInJoin(a: string, b: string)
    ensures Captured(a + "\n" + b, TipoMarker, RestOfLine) ==
      if HasTipo(a) then Captured(a, TipoMarker, RestOfLine) else Captured(b, TipoMarker, RestOfLine)
    ensures Captured(a + "\n" + b, ItemMarker, RestOfLine) ==
      if HasItem(a) then Captured(a, ItemMarker, RestOfLine) else Captured(b, ItemMarker, RestOfLine)
    ensures Captured(a + "\n" + b, CategoriaMarker, RestOfLine) ==
      if HasCategoria(a) then Captured(a, CategoriaMarker, RestOfLine) else Captured(b, CategoriaMarker, RestOfLine)
    ensures Captured(a + "\n" + b, ValorMarker, AmountRun) ==
      if HasValor(a) then Captured(a, ValorMarker, AmountRun) else Captured(b, ValorMarker, AmountRun)
  {
    MarkersHaveNoBreak();
    CapturedInJoin(a, b, TipoMarker, RestOfLine);
    CapturedInJoin(a, b, ItemMarker, RestOfLine);
    CapturedInJoin(a, b, CategoriaMarker, RestOfLine);
    CapturedInJoin(a, b, ValorMarker, AmountRun);
  }

  /**
   * The order of the lines does not matter: swapping two blocks of the reply
   * gives the same result, as long as no marker is found in both blocks.
   */
  lemma ParseIgnoresLineOrder(a: string, b: string, today: Date)
    requires Valid(today)
    requires !(HasTipo(a) && HasTipo(b)) && !(HasItem(a) && HasItem(b))
    requires !(HasCategoria(a) && HasCategoria(b)) && !(HasValor(a) && HasValor(b))
    ensures ParseTransaction(a + "\n" + b, today) == ParseTransaction(b + "\n" + a, today)
  {
    CapturesInJoin(a, b);
    CapturesInJoin(b, a);
  }

  /** Lines that carry no marker, the model's date line among them, change nothing wherever they stand. */
  lemma ParseIgnoresUnmarkedLines(a: string, b: string, today: Date)
    requires Valid(today) && Unmarked(b)
    ensures ParseTransaction(a + "\n" + b, today) == ParseTransaction(a, today)
    ensures ParseTransaction(b + "\n" + a, today) == ParseTransaction(a, today)
  {
    CapturesInJoin(a, b);
    CapturesInJoin(b, a);
  }

  /**
   * A text field is the rest of the line after the leftmost marker match,
   * from just after the marker up to the next line break or the end of the
   * text, with surrounding whitespace stripped.
   */
  lemma LabelIsRestOfLine(text: string, marker: string, i: nat, j: nat)
    requires MatchAt(text, marker, RestOfLine, i)
    requires forall k: nat :: k < i ==> !MatchAt(text, marker, RestOfLine, k)
    requires i + |marker| < j <= |text|
    requires forall k :: i + |marker| <= k < j ==> text[k] != '\n'
    requires j == |text| || text[j] == '\n'
    ensures Label(text, marker) == Some(Strip(text[i + |marker|..j]))
  {
    CapturedIsRun(text, marker, RestOfLine, i, j);
  }

  /**
   * Reference reading of `.group(1)`: at the leftmost match, the group
   * captures the longest run of admitted characters that starts right after
   * the marker, ending at the end of the text or at the first character the
   * group refuses.
   */
  lemma CapturedIsRun(text: string, marker: string, g: Group, i: nat, j: nat)
    requires MatchAt(text, marker, g, i)
    requires forall k: nat :: k < i ==> !MatchAt(text, marker, g, k)
    requires i + |marker| < j <= |text|
    requires forall k :: i + |marker| <= k < j ==> Admits(g, text[k])
    requires j == |text| || !Admits(g, text[j])
    ensures Captured(text, marker, g) == Some(text[i + |marker|..j])
  {
    SearchIsLeftmost(text, marker, g, i);
    var after := text[i + |marker|..];
    var run := text[i + |marker|..j];
    assert after[..|run|] == run;
    assert |run| == |after| || !Admits(g, after[|run|]);
    SpanIsRun(after, run, g);
  }

  /** The greedy `+` takes every admitted character up to the first one refused. */
  lemma SpanIsRun(after: string, run: string, g: Group)
    requires |run| <= |after| && after[..|run|] == run
    requires forall k :: 0 <= k < |run| ==> Admits(g, run[k])
    requires |run| == |after| || !Admits(g, after[|run|])
    ensures Span(after, g) == run
  {
  }

  /**
   * Reference reading of the amount: the conversion of the longest run of
   * digits, points and commas right after the leftmost `💰 Valor: R$ `.
   */
  lemma AmountIsRun(text: string, i: nat, j: nat)
    requires MatchAt(text, ValorMarker, AmountRun, i)
    requires forall k: nat :: k < i ==> !MatchAt(text, ValorMarker, AmountRun, k)
    requires i + |ValorMarker| < j <= |text|
    requires forall k :: i + |ValorMarker| <= k < j ==> Admits(AmountRun, text[k])
    requires j == |text| || !Admits(AmountRun, text[j])
    ensures AmountChars(text[i + |ValorMarker|..j])
    ensures Amount(text) == AmountOf(text[i + |ValorMarker|..j])
  {
    CapturedIsRun(text, ValorMarker, AmountRun, i, j);
  }

  // ---------------------------------------------------------------------------
  // Amounts of the two shapes that convert, and worked examples

  /** A run of digits alone reads as that whole number. */
  lemma AmountOfDigits(run: string)
    requires AllDigits(run) && run != []
    ensures AmountChars(run)
    ensures AmountOf(run) == Some(Decimal(Number(run), 0))
  {
    assert '.' !in run && ',' !in run by {
      forall k | 0 <= k < |run| ensures run[k] != '.' && run[k] != ',' {
        assert IsDigit(run[k]);
      }
    }
    assert Separators(run) == 0;
  }

  /**
   * Digits, one separator (point or comma), digits, with at least one digit
   * in all: the digits read as one integer, scaled down by the number of
   * digits after the separator.
   */
  lemma AmountOfDecimal(whole: string, sep: char, fraction: string)
    requires sep == '.' || sep == ','
    requires AllDigits(whole) && AllDigits(fraction) && whole + fraction != []
    ensures AmountChars(whole + [sep] + fraction)
    ensures AllDigits(whole + fraction)
    ensures AmountOf(whole + [sep] + fraction) == Some(Decimal(Number(whole + fraction), |fraction|))
  {
    var run := whole + [sep] + fraction;
    var k := |whole|;
    assert AmountChars(run) by {
      forall i | 0 <= i < |run| ensures Admits(AmountRun, run[i]) {
        if i < k {
          assert run[i] == whole[i];
        } else if i > k {
          assert run[i] == fraction[i - k - 1];
        }
      }
    }
    assert WellFormedAmount(run) by {
      NoSeparators(whole);
      NoSeparators(fraction);
      assert multiset(run) == multiset(whole) + multiset{sep} + multiset(fraction);
    }
    assert run[..k] + run[k + 1..] == whole + fraction by {
      assert run[..k] == whole && run[k + 1..] == fraction;
    }
    assert SeparatorAt(run, k);
  }

  lemma NoSeparators(s: string)
    requires AllDigits(s)
    ensures multiset(s)['.'] == 0 && multiset(s)[','] == 0
  {
    assert '.' !in s && ',' !in s by {
      forall k | 0 <= k < |s| ensures s[k] != '.' && s[k] != ',' {
        assert IsDigit(s[k]);
      }
    }
  }

  /** Two separators anywhere in the run, and it does not convert. */
  lemma AmountWithTwoSeparators(run: string, i: nat, j: nat)
    requires AmountChars(run) && i < j < |run|
    requires SeparatorAt(run, i) && SeparatorAt(run, j)
    ensures AmountOf(run).None?
  {
    assert run == run[..j] + run[j..];
    assert multiset(run) == multiset(run[..j]) + multiset(run[j..]);
    assert run[..j][i] == run[i] && run[j..][0] == run[j];
    assert run[i] in multiset(run[..j]) && run[j] in multiset(run[j..]);
  }

  // The examples below spell the run out character by character: a string
  // literal in scope lets the solver unfold the conversion without bound.

  /** "R$ 120" reads 120. */
  lemma AmountWithoutSeparator(run: string)
    requires |run| == 3 && run[0] == '1' && run[1] == '2' && run[2] == '0'
    ensures AmountOf(run) == Some(Decimal(120, 0))
  {
    var p, q := run[..2], run[..1];
    assert AllDigits(run) && p[..1] == q && q[..0] == [];
    assert Number(q) == 1;
    assert Number(p) == 12;
    AmountOfDigits(run);
  }

  /** "R$ 1,5" reads 1.5: the comma is the decimal separator. */
  lemma AmountWithComma(run: string)
    requires |run| == 3 && run[0] == '1' && run[1] == ',' && run[2] == '5'
    ensures AmountOf(run) == Some(Decimal(15, 1)) && Value(Decimal(15, 1)) == 1.5
  {
    var whole, fraction := run[..1], run[2..];
    assert run == whole + [','] + fraction;
    ReadsTwoDigits(whole + fraction);
    AmountOfDecimal(whole, ',', fraction);
    assert Value(Decimal(15, 1)) == 1.5 by {
      assert Pow10(1) == 10;
    }
  }

  /** "R$ 1.234" reads 1.234, not 1234: a point is a decimal separator too. */
  lemma AmountWithPoint(run: string)
    requires |run| == 5 && run[0] == '1' && run[1] == '.' && run[2] == '2' && run[3] == '3' && run[4] == '4'
    ensures AmountOf(run) == Some(Decimal(1234, 3)) && Value(Decimal(1234, 3)) == 1.234
  {
    var whole, fraction := run[..1], run[2..];
    assert run == whole + ['.'] + fraction;
    ReadsDigits(whole + fraction);
    AmountOfDecimal(whole, '.', fraction);
    assert Value(Decimal(1234, 3)) == 1.234 by {
      assert Pow10(3) == 1000;
    }
  }

  lemma ReadsTwoDigits(digits: string)
    requires |digits| == 2 && digits[0] == '1' && digits[1] == '5'
    ensures AllDigits(digits) && Number(digits) == 15
  {
    var p1 := digits[..1];
    assert p1[..0] == [];
    assert Number(p1) == 1;
  }

  lemma ReadsDigits(digits: string)
    requires |digits| == 4 && digits[0] == '1' && digits[1] == '2' && digits[2] == '3' && digits[3] == '4'
    ensures AllDigits(digits) && Number(digits) == 1234
  {
    var p3, p2, p1 := digits[..3], digits[..2], digits[..1];
    assert p3[..2] == p2 && p2[..1] == p1 && p1[..0] == [];
    assert Number(p1) == 1;
    assert Number(p2) == 12;
    assert Number(p3) == 123;
  }

  /** "R$ 1.234,56" does not convert: once the comma is rewritten there are two points. */
  lemma AmountWithThousands(run: string)
    requires run == "1.234,56"
    ensures AmountOf(run).None?
  {
    assert AmountChars(run);
    AmountWithTwoSeparators(run, 1, 5);
  }

  /**
   * "R$ abc" fails: when nothing the amount pattern admits follows the value
   * marker, and the marker's emoji appears nowhere else, there is no amount.
   */
  lemma AmountWithoutDigits(rest: string)
    requires rest != [] && !Admits(AmountRun, rest[0]) && '\U{1F4B0}' !in rest
    ensures Amount(ValorMarker + rest).None?
  {
    var text := ValorMarker + rest;
    assert '\U{1F4B0}' !in ValorMarker[1..];
    forall i: nat | i < |text| ensures !MatchAt(text, ValorMarker, AmountRun, i) {
      if i == 0 {
        assert text[|ValorMarker|] == rest[0];
      } else if i + |ValorMarker| < |text| {
        assert text[i] != ValorMarker[0] by {
          if i < |ValorMarker| {
            assert text[i] == ValorMarker[1..][i - 1];
          } else {
            assert text[i] == rest[i - |ValorMarker|];
          }
        }
        assert text[i..i + |ValorMarker|][0] == text[i];
      }
    }
  }

  lemma AmountOfLetters(rest: string)
    requires rest == "abc"
    ensures Amount(ValorMarker + rest).None?
  {
    AmountWithoutDigits(rest);
  }

  /**
   * A marker followed only by blanks on its line gives an empty field, not a
   * failure: for any marker, anywhere in any reply, once it is the leftmost
   * match.
   */
  lemma BlankLabel(text: string, marker: string, i: nat, j: nat)
    requires MatchAt(text, marker, RestOfLine, i)
    requires forall k: nat :: k < i ==> !MatchAt(text, marker, RestOfLine, k)
    requires i + |marker| < j <= |text|
    requires forall k :: i + |marker| <= k < j ==> text[k] != '\n'
    requires j == |text| || text[j] == '\n'
    requires AllSpace(text[i + |marker|..j])
    ensures Label(text, marker) == Some([])
  {
    LabelIsRestOfLine(text, marker, i, j);
    StripBlank(text[i + |marker|..j]);
  }

  /** "💸 Tipo: " followed by blanks alone gives an empty type. */
  lemma BlankTipo(rest: string)
    requires rest != [] && AllSpace(rest) && '\n' !in rest
    ensures Label(TipoMarker + rest, TipoMarker) == Some([])
  {
    var text := TipoMarker + rest;
    assert text[|TipoMarker|..] == rest;
    assert text[..|TipoMarker|] == TipoMarker;
    BlankLabel(text, TipoMarker, 0, |text|);
  }

  lemma {:induction false} StripBlank(s: string)
    requires AllSpace(s)
    ensures StripLeading(s) == [] && Strip(s) == []
  {
    if s != [] {
      assert IsSpace(s[0]) && AllSpace(s[1..]);
      StripBlank(s[1..]);
    }
  }

}
