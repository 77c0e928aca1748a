/**
 * Variable renaming of `obfuscate_script` in DaObfu/daobfu.py.
 *
 * `re.findall(r'\$\b[a-zA-Z_][a-zA-Z0-9_]*\b', text)` is modelled by `Lex`, which
 * cuts the text into single characters and `$name` tokens, and `Findall`, the
 * tokens in text order. `re.sub(re.escape(var) + r'\b', new_name, text)` is the
 * character scanner `Replace`. The loop over `set(variables)` is the method
 * `ObfuscateVariables`; the set's iteration order is chosen freely and reported.
 * Word characters for `\b` are the ASCII ones, [A-Za-z0-9_].
 */
module Renamer {
  import opened Text

  predicate IsLetter(c: char) { 'a' <= c <= 'z' || 'A' <= c <= 'Z' }
  predicate IsDigit(c: char) { '0' <= c <= '9' }
  predicate IsWordChar(c: char) { IsLetter(c) || IsDigit(c) || c == '_' }
  predicate IsIdentStart(c: char) { IsLetter(c) || c == '_' }

  /** A non-empty run of word characters. */
  predicate IsWordName(n: string)
  {
    n != [] && forall i :: 0 <= i < |n| ==> IsWordChar(n[i])
  }

  /** What `[a-zA-Z_][a-zA-Z0-9_]*` matches. */
  predicate IsIdentifier(n: string)
  {
    IsWordName(n) && IsIdentStart(n[0])
  }

  // ---------------------------------------------------------------------------
  // Random names

  /** A name `generate_random_name` can return: 8 characters of `string.ascii_letters + string.digits`. */
  predicate IsGeneratedName(m: string)
  {
    |m| == 8 && forall i :: 0 <= i < |m| ==> IsLetter(m[i]) || IsDigit(m[i])
  }

  /** The k-th character of `string.ascii_letters + string.digits` (a-z, then A-Z, then 0-9). */
  function AlphabetChar(k: nat): (c: char)
    requires k < 62
    ensures IsLetter(c) || IsDigit(c)
  {
    if k < 26 then ('a' as int + k) as char
    else if k < 52 then ('A' as int + k - 26) as char
    else ('0' as int + k - 52) as char
  }

  function AlphabetIndex(c: char): (k: nat)
    requires IsLetter(c) || IsDigit(c)
    ensures k < 62 && AlphabetChar(k) == c
  {
    if 'a' <= c <= 'z' then c as int - 'a' as int
    else if 'A' <= c <= 'Z' then c as int - 'A' as int + 26
    else c as int - '0' as int + 52
  }

  /** `random.choices(alphabet, k=8)` joined, given the eight draws of the generator. */
  function GenerateRandomName(draws: seq<nat>): (m: string)
    requires |draws| == 8 && forall i :: 0 <= i < 8 ==> draws[i] < 62
    ensures IsGeneratedName(m)
    ensures forall i :: 0 <= i < 8 ==> AlphabetIndex(m[i]) == draws[i]
  {
    seq(8, i requires 0 <= i < 8 => AlphabetChar(draws[i]))
  }

  /** Every name of the right shape is what some sequence of draws produces. */
  lemma GeneratedNamesReachable(m: string)
    requires IsGeneratedName(m)
    ensures exists draws :: |draws| == 8 && (forall i :: 0 <= i < 8 ==> draws[i] < 62) && GenerateRandomName(draws) == m
  {
    var draws := seq(8, i requires 0 <= i < 8 => AlphabetIndex(m[i]));
    assert GenerateRandomName(draws) == m;
  }

  // ---------------------------------------------------------------------------
  // Reserved names

  /** `excluded_vars`, compared against the lower-cased bare name. */
  const ExcludedNames: set<string> := {"env", "true", "false", "null", "_", "this", "input", "args"}

  predicate IsExcludedName(n: string)
  {
    Lower(n) in ExcludedNames
  }

  /** `var[1:].split(':')[0]` */
  function BareName(v: string): (n: string)
    ensures |n| < |v| || v == []
  {
    if v == [] then [] else BeforeColon(v[1..])
  }

  function BeforeColon(t: string): (r: string)
    ensures |r| <= |t| && r == t[..|r|] && ':' !in r
    ensures |r| < |t| ==> t[|r|] == ':'
  {
    if t == [] || t[0] == ':' then [] else [t[0]] + BeforeColon(t[1..])
  }

  /** Reserved names are compared case-insensitively, so `$ENV` and `$True` are kept too. */
  lemma ExcludedIgnoresCase()
    ensures IsExcludedName("ENV") && IsExcludedName("True")
  {
    var e := Lower("ENV");
    assert e[0] == 'e' && e[1] == 'n' && e[2] == 'v';
    assert e == "env";
    var t := Lower("True");
    assert t[0] == 't' && t[1] == 'r' && t[2] == 'u' && t[3] == 'e';
    assert t == "true";
  }

  /** A generated name is eight characters long and can never be one of the (shorter) reserved names. */
  lemma GeneratedNeverExcluded(m: string)
    requires IsGeneratedName(m)
    ensures !IsExcludedName(m)
  {
    assert |Lower(m)| == 8;
  }

  // ---------------------------------------------------------------------------
  // Tokens

  /** A piece of the script: one ordinary character, or a `$name` token. */
  datatype Piece = Char(c: char) | Token(name: string)

  function PieceText(p: Piece): string
  {
    match p
    case Char(c) => [c]
    case Token(n) => "$" + n
  }

  /** The character a piece starts with. */
  function LeadChar(p: Piece): char
  {
    match p
    case Char(c) => c
    case Token(_) => '$'
  }

  function Unlex(ps: seq<Piece>): (s: string)
    ensures ps != [] ==> s != [] && s[0] == LeadChar(ps[0])
  {
    if ps == [] then "" else PieceText(ps[0]) + Unlex(ps[1..])
  }

  /**
   * The shape `Lex` produces and renaming keeps: token names are word runs, a token
   * is never followed by a word character, and a lone '$' is never followed by a
   * character that could start a name.
   */
  ghost predicate WellFormed(ps: seq<Piece>)
  {
    && (forall i :: 0 <= i < |ps| && ps[i].Token? ==> IsWordName(ps[i].name))
    && (forall i, j :: 0 <= i < j < |ps| && j == i + 1 && ps[i].Token? ==> !IsWordChar(LeadChar(ps[j])))
    && (forall i, j :: 0 <= i < j < |ps| && j == i + 1 && ps[i] == Char('$') ==> !IsIdentStart(LeadChar(ps[j])))
  }

  lemma WellFormedCons(p: Piece, ps: seq<Piece>)
    requires WellFormed(ps)
    requires p.Token? ==> IsWordName(p.name) && (ps != [] ==> !IsWordChar(LeadChar(ps[0])))
    requires p == Char('$') && ps != [] ==> !IsIdentStart(LeadChar(ps[0]))
    ensures WellFormed([p] + ps)
  {
    var qs := [p] + ps;
    assert forall i :: 1 <= i < |qs| ==> qs[i] == ps[i - 1];
  }

  lemma WellFormedTail(ps: seq<Piece>)
    requires WellFormed(ps) && ps != []
    ensures WellFormed(ps[1..])
  {
    var qs := ps[1..];
    assert forall i :: 0 <= i < |qs| ==> qs[i] == ps[i + 1];
  }

  /** The longest prefix of word characters. */
  function WordPrefix(t: string): (w: string)
    ensures |w| <= |t| && w == t[..|w|]
    ensures forall i :: 0 <= i < |w| ==> IsWordChar(w[i])
    ensures |w| < |t| ==> !IsWordChar(t[|w|])
  {
    if t != [] && IsWordChar(t[0]) then [t[0]] + WordPrefix(t[1..]) else []
  }

  /**
   * The scan of `re.findall`: at a '$' followed by a letter or '_' the token takes the
   * longest run of word characters; elsewhere one character is passed over.
   */
  function Lex(s: string): (ps: seq<Piece>)
    ensures Unlex(ps) == s
    ensures WellFormed(ps)
    ensures forall i :: 0 <= i < |ps| && ps[i].Token? ==> IsIdentifier(ps[i].name)
  {
    if s == [] then []
    else if |s| >= 2 && s[0] == '$' && IsIdentStart(s[1]) then
      var n := WordPrefix(s[1..]);
      var rest := Lex(s[1 + |n|..]);
      LexToken(s, n, rest);
      [Token(n)] + rest
    else
      var rest := Lex(s[1..]);
      LexChar(s, rest);
      [Char(s[0])] + rest
  }

  /** At a '$' followed by a letter or '_', the token's name is an identifier ending before a non-word character. */
  lemma TokenAtStart(s: string)
    requires |s| >= 2 && s[0] == '$' && IsIdentStart(s[1])
    ensures var n := WordPrefix(s[1..]);
      && IsIdentifier(n) && 1 + |n| <= |s| && s == "$" + n + s[1 + |n|..]
      && (1 + |n| < |s| ==> !IsWordChar(s[1 + |n|]))
  {
    var t := s[1..];
    var n := WordPrefix(t);
    assert t[0] == s[1] && IsWordChar(t[0]);
    assert |n| > 0 && n[0] == t[0];
    assert s[1 + |n|..] == t[|n|..];
    assert 1 + |n| < |s| ==> s[1 + |n|] == t[|n|];
    assert s == [s[0]] + t;
  }

  /** The properties of `Lex` for a text that starts with a token. */
  lemma LexToken(s: string, n: string, rest: seq<Piece>)
    requires |s| >= 2 && s[0] == '$' && IsIdentStart(s[1]) && n == WordPrefix(s[1..])
    requires Unlex(rest) == s[1 + |n|..] && WellFormed(rest)
    requires forall i :: 0 <= i < |rest| && rest[i].Token? ==> IsIdentifier(rest[i].name)
    ensures var ps := [Token(n)] + rest;
      && Unlex(ps) == s && WellFormed(ps)
      && forall i :: 0 <= i < |ps| && ps[i].Token? ==> IsIdentifier(ps[i].name)
  {
    TokenAtStart(s);
    assert rest != [] ==> LeadChar(rest[0]) == s[1 + |n|];
    WellFormedCons(Token(n), rest);
    UnlexCons(Token(n), rest);
    IdentifiersCons(Token(n), rest);
  }

  /** The properties of `Lex` for a text that starts with an ordinary character. */
  lemma LexChar(s: string, rest: seq<Piece>)
    requires s != [] && !(|s| >= 2 && s[0] == '$' && IsIdentStart(s[1]))
    requires Unlex(rest) == s[1..] && WellFormed(rest)
    requires forall i :: 0 <= i < |rest| && rest[i].Token? ==> IsIdentifier(rest[i].name)
    ensures var ps := [Char(s[0])] + rest;
      && Unlex(ps) == s && WellFormed(ps)
      && forall i :: 0 <= i < |ps| && ps[i].Token? ==> IsIdentifier(ps[i].name)
  {
    WellFormedCons(Char(s[0]), rest);
    UnlexCons(Char(s[0]), rest);
    IdentifiersCons(Char(s[0]), rest);
    assert s == [s[0]] + s[1..];
  }

  lemma UnlexCons(p: Piece, rest: seq<Piece>)
    ensures Unlex([p] + rest) == PieceText(p) + Unlex(rest)
  {
    assert ([p] + rest)[1..] == rest;
  }

  lemma IdentifiersCons(p: Piece, rest: seq<Piece>)
    requires p.Token? ==> IsIdentifier(p.name)
    requires forall i :: 0 <= i < |rest| && rest[i].Token? ==> IsIdentifier(rest[i].name)
    ensures var ps := [p] + rest; forall i :: 0 <= i < |ps| && ps[i].Token? ==> IsIdentifier(ps[i].name)
  {
    var ps := [p] + rest;
    assert forall i :: 1 <= i < |ps| ==> ps[i] == rest[i - 1];
  }

  /** The token texts of a piece list, in order. */
  function TokenTexts(ps: seq<Piece>): seq<string>
  {
    if ps == [] then [] else (if ps[0].Token? then ["$" + ps[0].name] else []) + TokenTexts(ps[1..])
  }

  /** The token texts are exactly the texts of the token pieces. */
  lemma {:induction false} TokenTextsMembers(ps: seq<Piece>)
    ensures forall t :: t in TokenTexts(ps) ==> exists i :: 0 <= i < |ps| && ps[i].Token? && t == "$" + ps[i].name
    ensures forall i :: 0 <= i < |ps| && ps[i].Token? ==> "$" + ps[i].name in TokenTexts(ps)
  {
    if ps != [] {
      TokenTextsMembers(ps[1..]);
      assert forall i :: 1 <= i < |ps| ==> ps[i] == ps[1..][i - 1];
    }
  }

  /** `re.findall(r'\$\b[a-zA-Z_][a-zA-Z0-9_]*\b', s)` */
  function Findall(s: string): seq<string>
  {
    TokenTexts(Lex(s))
  }

  /** The names (without '$') of the tokens of a text. */
  ghost function TokenNames(s: string): set<string>
  {
    set i | 0 <= i < |Lex(s)| && Lex(s)[i].Token? :: Lex(s)[i].name
  }

  /** Every found variable is `$` and an identifier, and its bare name is that identifier. */
  lemma FindallShape(s: string, t: string)
    requires t in Findall(s)
    ensures |t| >= 2 && t[0] == '$' && IsIdentifier(t[1..])
    ensures BareName(t) == t[1..] && BareName(t) in TokenNames(s)
  {
    var ps := Lex(s);
    TokenTextsMembers(ps);
    var i :| 0 <= i < |ps| && ps[i].Token? && t == "$" + ps[i].name;
    var n := ps[i].name;
    assert t[1..] == n;
    assert IsIdentifier(n);
    WordNameHasNoColon(n);
    assert n in TokenNames(s);
  }

  lemma WordNameHasNoColon(n: string)
    requires IsWordName(n)
    ensures BeforeColon(n) == n
  {
    var b := BeforeColon(n);
    assert |b| < |n| ==> IsWordChar(n[|b|]);
  }

  // ---------------------------------------------------------------------------
  // One substitution

  /**
   * `re.sub(re.escape(v) + r'\b', w, s)` for a `v` that ends in a word character:
   * every occurrence of `v` not followed by a word character, scanned left to
   * right without overlap, becomes `w`.
   */
  function Replace(s: string, v: string, w: string): string
    requires v != [] && IsWordChar(v[|v| - 1])
    decreases |s|
  {
    if s == [] then []
    else if v <= s && (|s| == |v| || !IsWordChar(s[|v|])) then w + Replace(s[|v|..], v, w)
    else [s[0]] + Replace(s[1..], v, w)
  }

  /** The trailing word boundary at work: `$foo` inside `$foobar` is not rewritten... */
  lemma ReplaceRespectsBoundary()
    ensures Replace("$foobar", "$foo", "$Ab3dE6gH") == "$foobar"
  {
    var v := "$foo";
    var w := "$Ab3dE6gH";
    assert Replace("r", v, w) == "r";
    assert Replace("ar", v, w) == "ar";
    assert Replace("bar", v, w) == "bar";
    assert Replace("obar", v, w) == "obar";
    assert Replace("oobar", v, w) == "oobar";
    assert Replace("foobar", v, w) == "foobar";
  }

  /** ...while `$foo` followed by a non-word character is. */
  lemma ReplaceAtBoundary()
    ensures Replace("$foo+1", "$foo", "$Ab3dE6gH") == "$Ab3dE6gH+1"
  {
    assert Replace("1", "$foo", "$Ab3dE6gH") == "1";
    assert Replace("+1", "$foo", "$Ab3dE6gH") == "+1";
    assert "$foo+1"[4..] == "+1";
  }

  /** Text made of characters other than '$' is copied through. */
  lemma {:induction false} ReplaceSkip(t: string, u: string, v: string, w: string)
    requires v != [] && v[0] == '$' && IsWordChar(v[|v| - 1])
    requires '$' !in t
    ensures Replace(t + u, v, w) == t + Replace(u, v, w)
  {
    if t != [] {
      assert t[0] in t;
      var s := t + u;
      assert s != [] && s[0] == t[0] && s[0] != '$';
      assert v[0] != s[0];
      assert s[1..] == t[1..] + u;
      ReplaceSkip(t[1..], u, v, w);
      assert Replace(s, v, w) == [s[0]] + Replace(s[1..], v, w);
      assert [t[0]] + (t[1..] + Replace(u, v, w)) == t + Replace(u, v, w);
    } else {
      assert t + u == u;
    }
  }

  function RenamePiece(p: Piece, v: string, m: string): Piece
  {
    if p == Token(v) then Token(m) else p
  }

  /** Every `$v` token becomes `$m`; every other piece stays. */
  function RenameTokens(ps: seq<Piece>, v: string, m: string): seq<Piece>
  {
    seq(|ps|, i requires 0 <= i < |ps| => RenamePiece(ps[i], v, m))
  }

  lemma RenameTokensWellFormed(ps: seq<Piece>, v: string, m: string)
    requires WellFormed(ps) && IsWordName(m)
    ensures WellFormed(RenameTokens(ps, v, m))
  {
    var r := RenameTokens(ps, v, m);
    forall i | 0 <= i < |r| ensures LeadChar(r[i]) == LeadChar(ps[i]) && (r[i].Token? <==> ps[i].Token?) {
    }
  }

  /** A `$n` token other than `$v`, followed by what may follow a token, holds no match of `$v\b`. */
  lemma NoMatchAtOtherToken(n: string, rest: string, v: string)
    requires IsWordName(n) && IsIdentifier(v) && n != v
    requires rest != [] ==> !IsWordChar(rest[0])
    ensures var s := "$" + n + rest; var tv := "$" + v;
      !(tv <= s && (|s| == |tv| || !IsWordChar(s[|tv|])))
  {
    var s := "$" + n + rest;
    var tv := "$" + v;
    if |v| < |n| {
      assert s[|tv|] == n[|v|];
    } else if |v| == |n| {
      assert s[1..|tv|] == n;
      assert tv[1..] == v;
    } else {
      assert |s| > |n| + 1 ==> s[|n| + 1] == rest[0];
      assert tv[|n| + 1] == v[|n|];
    }
  }

  /** An ordinary character never starts a match of `$v\b` and is copied. */
  lemma ReplaceAtChar(c: char, rest: string, v: string, m: string)
    requires IsIdentifier(v)
    requires c == '$' && rest != [] ==> !IsIdentStart(rest[0])
    ensures Replace([c] + rest, "$" + v, "$" + m) == [c] + Replace(rest, "$" + v, "$" + m)
  {
    var s := [c] + rest;
    var tv := "$" + v;
    assert tv[0] == '$' && |tv| >= 2 && IsIdentStart(tv[1]);
    assert |s| >= 2 ==> s[1] == rest[0];
    assert !(tv <= s);
    assert s[1..] == rest;
  }

  /** The token `$v` itself, followed by what may follow a token, is replaced whole. */
  lemma ReplaceAtSameToken(rest: string, v: string, w: string)
    requires IsIdentifier(v)
    requires rest != [] ==> !IsWordChar(rest[0])
    ensures Replace("$" + v + rest, "$" + v, w) == w + Replace(rest, "$" + v, w)
  {
    var s := "$" + v + rest;
    var tv := "$" + v;
    assert tv[|tv| - 1] == v[|v| - 1];
    assert s == tv + rest;
    assert tv <= s;
    assert s[|tv|..] == rest;
    assert |s| > |tv| ==> s[|tv|] == rest[0];
  }

  /** A `$n` token other than `$v`, followed by what may follow a token, is copied. */
  lemma ReplaceAtOtherToken(n: string, rest: string, v: string, w: string)
    requires IsIdentifier(v) && IsWordName(n) && n != v
    requires rest != [] ==> !IsWordChar(rest[0])
    ensures Replace("$" + n + rest, "$" + v, w) == "$" + n + Replace(rest, "$" + v, w)
  {
    var s := "$" + n + rest;
    var tv := "$" + v;
    NoMatchAtOtherToken(n, rest, v);
    assert s[1..] == n + rest;
    ReplaceSkip(n, rest, tv, w);
    assert Replace(s, tv, w) == [s[0]] + Replace(s[1..], tv, w);
  }

  /** Substituting `$v` in the text renames exactly the `$v` tokens of its pieces. */
  lemma {:induction false} ReplaceIsRename(ps: seq<Piece>, v: string, m: string)
    requires WellFormed(ps) && IsIdentifier(v)
    ensures Replace(Unlex(ps), "$" + v, "$" + m) == Unlex(RenameTokens(ps, v, m))
  {
    if ps != [] {
      var tail := ps[1..];
      var rest := Unlex(tail);
      WellFormedTail(ps);
      ReplaceIsRename(tail, v, m);
      var r := RenameTokens(ps, v, m);
      assert r[1..] == RenameTokens(tail, v, m);
      assert Unlex(r) == PieceText(r[0]) + Unlex(r[1..]);
      assert Unlex(ps) == PieceText(ps[0]) + rest;
      assert rest != [] ==> rest[0] == LeadChar(ps[1]);
      match ps[0]
      case Char(c) =>
        ReplaceAtChar(c, rest, v, m);
      case Token(n) =>
        assert "$" + n + rest == PieceText(ps[0]) + rest;
        if n == v {
          ReplaceAtSameToken(rest, v, "$" + m);
        } else {
          ReplaceAtOtherToken(n, rest, v, "$" + m);
        }
    }
  }

  // ---------------------------------------------------------------------------
  // The renaming loop, as a specification

  /** Whether the loop skips a found variable. */
  predicate IsExcludedToken(v: string)
  {
    IsExcludedName(BareName(v))
  }

  /** How many random names the loop has drawn after visiting `order`. */
  function Drawn(order: seq<string>): (k: nat)
    ensures k <= |order|
  {
    if order == [] then 0
    else Drawn(order[..|order| - 1]) + (if IsExcludedToken(order[|order| - 1]) then 0 else 1)
  }

  /** The pieces after the loop has visited the variables of `order`, in that order, with names drawn from `gen`. */
  function RenameAll(ps: seq<Piece>, order: seq<string>, gen: nat -> string): seq<Piece>
  {
    if order == [] then ps
    else
      var init := order[..|order| - 1];
      var v := order[|order| - 1];
      var prev := RenameAll(ps, init, gen);
      if IsExcludedToken(v) then prev else RenameTokens(prev, BareName(v), gen(Drawn(init)))
  }

  /** One more visited variable: the loop either skips it or renames its tokens with the next drawn name. */
  lemma RenameAllSnoc(ps: seq<Piece>, order: seq<string>, v: string, gen: nat -> string)
    ensures Drawn(order + [v]) == Drawn(order) + (if IsExcludedToken(v) then 0 else 1)
    ensures RenameAll(ps, order + [v], gen) ==
      if IsExcludedToken(v) then RenameAll(ps, order, gen)
      else RenameTokens(RenameAll(ps, order, gen), BareName(v), gen(Drawn(order)))
  {
    assert (order + [v])[..|order|] == order;
  }

  /** Whatever order the loop takes and whatever names it draws, no character and no reserved variable is ever rewritten. */
  lemma {:induction false} RenameAllKeeps(ps: seq<Piece>, order: seq<string>, gen: nat -> string, i: int)
    requires 0 <= i < |ps|
    requires ps[i].Char? || IsExcludedName(ps[i].name)
    ensures |RenameAll(ps, order, gen)| == |ps| && RenameAll(ps, order, gen)[i] == ps[i]
  {
    if order != [] {
      RenameAllKeeps(ps, order[..|order| - 1], gen, i);
    }
  }

  /** The renaming table the loop builds implicitly: bare name to the random name drawn for it. */
  function Table(order: seq<string>, gen: nat -> string): (t: map<string, string>)
    ensures forall n :: n in t ==> !IsExcludedName(n)
  {
    if order == [] then map[]
    else
      var init := order[..|order| - 1];
      var v := order[|order| - 1];
      var prev := Table(init, gen);
      if IsExcludedToken(v) then prev else prev[BareName(v) := gen(Drawn(init))]
  }

  /** The table's keys are bare names of visited variables. */
  lemma {:induction false} TableKeysVisited(order: seq<string>, gen: nat -> string)
    ensures forall n :: n in Table(order, gen) ==> exists i :: 0 <= i < |order| && BareName(order[i]) == n
  {
    if order != [] {
      var init := order[..|order| - 1];
      var v := order[|order| - 1];
      TableKeysVisited(init, gen);
      forall n | n in Table(order, gen) ensures exists i :: 0 <= i < |order| && BareName(order[i]) == n {
        if n in Table(init, gen) {
          var i :| 0 <= i < |init| && BareName(init[i]) == n;
          assert order[i] == init[i];
        } else {
          assert BareName(order[|order| - 1]) == n;
        }
      }
    }
  }

  /** Every visited variable that is not reserved has its bare name in the table. */
  lemma {:induction false} TableKeysComplete(order: seq<string>, gen: nat -> string)
    ensures forall i :: 0 <= i < |order| && !IsExcludedToken(order[i]) ==> BareName(order[i]) in Table(order, gen)
  {
    if order != [] {
      var init := order[..|order| - 1];
      var v := order[|order| - 1];
      var prev := Table(init, gen);
      var t := Table(order, gen);
      TableKeysComplete(init, gen);
      assert prev.Keys <= t.Keys;
      assert !IsExcludedToken(v) ==> BareName(v) in t;
      forall i | 0 <= i < |init| && !IsExcludedToken(order[i]) ensures BareName(order[i]) in t {
        assert order[i] == init[i];
      }
    }
  }

  /** The table's values are names drawn so far. */
  lemma {:induction false} TableValues(order: seq<string>, gen: nat -> string)
    ensures forall n :: n in Table(order, gen) ==> exists j :: 0 <= j < Drawn(order) && Table(order, gen)[n] == gen(j)
  {
    if order != [] {
      var init := order[..|order| - 1];
      TableValues(init, gen);
    }
  }

  function MapPiece(p: Piece, t: map<string, string>): Piece
  {
    if p.Token? && p.name in t then Token(t[p.name]) else p
  }

  /** Every token whose name the table holds is renamed at once by the table. */
  function MapTokens(ps: seq<Piece>, t: map<string, string>): seq<Piece>
  {
    seq(|ps|, i requires 0 <= i < |ps| => MapPiece(ps[i], t))
  }

  lemma RenameAfterMap(ps: seq<Piece>, t: map<string, string>, v: string, m: string)
    requires v !in t
    requires forall n :: n in t ==> t[n] != v
    ensures RenameTokens(MapTokens(ps, t), v, m) == MapTokens(ps, t[v := m])
  {
  }

  predicate DistinctNames(order: seq<string>)
  {
    forall i, j :: 0 <= i < j < |order| ==> BareName(order[i]) != BareName(order[j])
  }

  /**
   * Renaming one variable after another gives the same pieces as applying the whole
   * table at once, provided no drawn name is itself the name of a variable of the loop.
   */
  lemma {:induction false} RenameAllIsTable(ps: seq<Piece>, order: seq<string>, gen: nat -> string)
    requires DistinctNames(order)
    requires forall i, j :: 0 <= i < |order| && 0 <= j < |order| ==> gen(j) != BareName(order[i])
    ensures RenameAll(ps, order, gen) == MapTokens(ps, Table(order, gen))
  {
    if order != [] {
      var init := order[..|order| - 1];
      var v := order[|order| - 1];
      assert forall i :: 0 <= i < |init| ==> init[i] == order[i];
      RenameAllIsTable(ps, init, gen);
      if !IsExcludedToken(v) {
        var t := Table(init, gen);
        var n := BareName(v);
        TableKeysVisited(init, gen);
        TableValues(init, gen);
        assert forall i :: 0 <= i < |init| ==> BareName(init[i]) != n;
        forall k | k in t ensures t[k] != n {
          var j :| 0 <= j < Drawn(init) && t[k] == gen(j);
          assert gen(j) != BareName(order[|order| - 1]);
        }
        RenameAfterMap(ps, t, n, gen(Drawn(init)));
      }
    }
  }

  // ---------------------------------------------------------------------------
  // The loop

  /** `order` lists each element of `vs` exactly once. */
  ghost predicate Enumerates(order: seq<string>, vs: seq<string>)
  {
    (forall t :: t in order <==> t in vs) && forall i, j :: 0 <= i < j < |order| ==> order[i] != order[j]
  }

  /**
   * The bookkeeping of the loop over `set(variables)`: `pending` holds what is still to
   * visit, `order` what was visited, each found variable once.
   */
  ghost predicate Visiting(variables: seq<string>, pending: set<string>, order: seq<string>)
  {
    && (forall t :: t in pending ==> t in variables && t !in order)
    && (forall t :: t in order ==> t in variables)
    && (forall t :: t in variables ==> t in pending || t in order)
    && (forall i, j :: 0 <= i < j < |order| ==> order[i] != order[j])
  }

  /** Visiting one pending variable keeps the bookkeeping; with nothing pending, `order` enumerates the variables. */
  lemma VisitOne(variables: seq<string>, pending: set<string>, order: seq<string>, v: string)
    requires Visiting(variables, pending, order) && v in pending
    ensures Visiting(variables, pending - {v}, order + [v])
    ensures pending - {v} == {} ==> Enumerates(order + [v], variables)
  {
  }

  /** One pass of the loop body on the text: skip a reserved variable, otherwise substitute the next drawn name. */
  lemma RenameStep(s: string, order: seq<string>, v: string, gen: nat -> string)
    requires v in Findall(s)
    requires forall k :: IsGeneratedName(gen(k))
    requires WellFormed(RenameAll(Lex(s), order, gen))
    ensures |v| >= 2 && IsWordChar(v[|v| - 1])
    ensures Drawn(order + [v]) == Drawn(order) + (if IsExcludedToken(v) then 0 else 1)
    ensures WellFormed(RenameAll(Lex(s), order + [v], gen))
    ensures Unlex(RenameAll(Lex(s), order + [v], gen)) ==
      if IsExcludedToken(v) then Unlex(RenameAll(Lex(s), order, gen))
      else Replace(Unlex(RenameAll(Lex(s), order, gen)), v, "$" + gen(Drawn(order)))
  {
    FindallShape(s, v);
    RenameAllSnoc(Lex(s), order, v, gen);
    var ps := RenameAll(Lex(s), order, gen);
    var name := BareName(v);
    assert v[|v| - 1] == name[|name| - 1];
    if !IsExcludedName(name) {
      assert v == "$" + name;
      ReplaceIsRename(ps, name, gen(Drawn(order)));
      RenameTokensWellFormed(ps, name, gen(Drawn(order)));
    }
  }

  /**
   * The renaming loop of `obfuscate_script`: each distinct found variable whose bare name
   * is not reserved is replaced everywhere by `$` and a freshly drawn name. `gen(k)` is
   * the k-th result of `generate_random_name`; `order` is the order in which the loop
   * visited `set(variables)`.
   */
  method ObfuscateVariables(s: string, gen: nat -> string) returns (r: string, order: seq<string>)
    requires forall k :: IsGeneratedName(gen(k))
    ensures Enumerates(order, Findall(s))
    ensures r == Unlex(RenameAll(Lex(s), order, gen))
  {
    var variables := Findall(s);
    var pending := set t | t in variables;
    r := s;
    order := [];
    var drawn := 0;
    while pending != {}
      invariant Visiting(variables, pending, order)
      invariant drawn == Drawn(order)
      invariant WellFormed(RenameAll(Lex(s), order, gen))
      invariant r == Unlex(RenameAll(Lex(s), order, gen))
      decreases |pending|
    {
      var v :| v in pending;
      RenameStep(s, order, v, gen);
      VisitOne(variables, pending, order, v);
      if !IsExcludedName(BareName(v)) {
        r := Replace(r, v, "$" + gen(drawn));
        drawn := drawn + 1;
      }
      order := order + [v];
      pending := pending - {v};
    }
  }

  /** The visited variables have distinct bare names, all of them token names of the text. */
  lemma EnumerationNames(s: string, order: seq<string>)
    requires Enumerates(order, Findall(s))
    ensures DistinctNames(order)
    ensures forall i :: 0 <= i < |order| ==> BareName(order[i]) in TokenNames(s)
  {
    forall i | 0 <= i < |order| ensures BareName(order[i]) in TokenNames(s) && order[i] == "$" + BareName(order[i]) {
      FindallShape(s, order[i]);
    }
  }

  /**
   * What renaming does to a text, when no drawn name happens to be the name of a
   * variable already in it: every character and every reserved variable stays; every
   * other variable, at each of its occurrences, becomes the one generated name the
   * table gives its bare name.
   */
  lemma RenamingSpec(s: string, order: seq<string>, gen: nat -> string)
    requires Enumerates(order, Findall(s))
    requires forall k :: IsGeneratedName(gen(k))
    requires forall j :: 0 <= j < |order| ==> gen(j) !in TokenNames(s)
    ensures var ps := Lex(s); var out := RenameAll(ps, order, gen); var t := Table(order, gen);
      && out == MapTokens(ps, t)
      && (forall i :: 0 <= i < |ps| && ps[i].Char? ==> out[i] == ps[i])
      && (forall i :: 0 <= i < |ps| && ps[i].Token? && IsExcludedName(ps[i].name) ==> out[i] == ps[i])
      && (forall i :: 0 <= i < |ps| && ps[i].Token? && !IsExcludedName(ps[i].name) ==>
            ps[i].name in t && out[i] == Token(t[ps[i].name]) && IsGeneratedName(t[ps[i].name]))
  {
    var ps := Lex(s);
    EnumerationNames(s, order);
    RenameAllIsTable(ps, order, gen);
    TableCoversTokens(s, order, gen);
  }

  /** Every token of the text that is not reserved gets a generated name from the table. */
  lemma TableCoversTokens(s: string, order: seq<string>, gen: nat -> string)
    requires Enumerates(order, Findall(s))
    requires forall k :: IsGeneratedName(gen(k))
    ensures var ps := Lex(s); var t := Table(order, gen);
      forall i :: 0 <= i < |ps| && ps[i].Token? && !IsExcludedName(ps[i].name) ==>
        ps[i].name in t && IsGeneratedName(t[ps[i].name])
  {
    var ps := Lex(s);
    var t := Table(order, gen);
    TableKeysComplete(order, gen);
    TableValues(order, gen);
    TokenTextsMembers(ps);
    forall i | 0 <= i < |ps| && ps[i].Token? && !IsExcludedName(ps[i].name)
      ensures ps[i].name in t && IsGeneratedName(t[ps[i].name])
    {
      var n := ps[i].name;
      assert "$" + n in Findall(s);
      var k :| 0 <= k < |order| && order[k] == "$" + n;
      FindallShape(s, order[k]);
      assert order[k][1..] == n;
      var j :| 0 <= j < Drawn(order) && t[n] == gen(j);
    }
  }
}
