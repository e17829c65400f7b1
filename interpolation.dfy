/**
 * The `render` helper of vuex-i18n: every non-overlapping match of the
 * regular expression `\{\w+\}` in a translation, scanned left to right, is
 * replaced by the value the replacement mapping holds for the identifier
 * between the braces, or kept verbatim when the mapping has none.
 * Replacement values are copied into the output and never scanned again.
 */
module Interpolation {
  import opened Wrappers

  /** A caller-supplied mapping from placeholder identifier to replacement text. */
  type Replacements = map<string, string>

  /** `\w` of a JavaScript regular expression: `[A-Za-z0-9_]`. */
  predicate IsWordChar(c: char) {
    ('A' <= c <= 'Z') || ('a' <= c <= 'z') || ('0' <= c <= '9') || c == '_'
  }

  /** One or more word characters: what `\w+` matches. */
  predicate IsIdentifier(id: string) {
    |id| > 0 && forall k :: 0 <= k < |id| ==> IsWordChar(id[k])
  }

  /** A whole match of `\{\w+\}`. */
  predicate IsPlaceholder(p: string) {
    |p| >= 3 && p[0] == '{' && p[|p| - 1] == '}' && IsIdentifier(p[1..|p| - 1])
  }

  /** Some substring of `t` matches `\{\w+\}`. */
  ghost predicate HasPlaceholder(t: string) {
    exists i, j :: 0 <= i <= j <= |t| && IsPlaceholder(t[i..j])
  }

  /** A character that can neither continue an identifier nor close a placeholder. */
  predicate IsBoundary(c: char) {
    !IsWordChar(c) && c != '}'
  }

  // ---------------------------------------------------------------------------
  // Matching `\{\w+\}` at the head of the text

  /** The length of the longest run of word characters at the head of `s`. */
  function WordSpan(s: string): (n: nat)
    ensures n <= |s|
  {
    if s != [] && IsWordChar(s[0]) then 1 + WordSpan(s[1..]) else 0
  }

  /** WordSpan is the longest run: word characters up to it, and none right after it. */
  lemma {:induction false} WordSpanMaximal(s: string)
    ensures forall k :: 0 <= k < WordSpan(s) ==> IsWordChar(s[k])
    ensures WordSpan(s) < |s| ==> !IsWordChar(s[WordSpan(s)])
  {
    if s != [] && IsWordChar(s[0]) {
      WordSpanMaximal(s[1..]);
    }
  }

  /** A run of `m` word characters followed by a non-word character has span `m`. */
  lemma {:induction false} WordSpanExact(s: string, m: nat)
    requires m < |s| && !IsWordChar(s[m])
    requires forall k :: 0 <= k < m ==> IsWordChar(s[k])
    ensures WordSpan(s) == m
  {
    if m > 0 {
      assert IsWordChar(s[0]);
      assert forall k :: 0 <= k < m - 1 ==> s[1..][k] == s[k + 1];
      WordSpanExact(s[1..], m - 1);
    }
  }

  /** A run of word characters stops where a non-word character begins. */
  lemma {:induction false} WordSpanAppend(a: string, b: string)
    requires b == [] || !IsWordChar(b[0])
    ensures WordSpan(a + b) == WordSpan(a)
  {
    if a != [] {
      assert (a + b)[1..] == a[1..] + b;
      WordSpanAppend(a[1..], b);
    }
  }

  /**
   * The identifier of the `\{\w+\}` match that starts at the head of `s`, if
   * there is one. Since neither brace is a word character, at most one prefix
   * of `s` is a placeholder.
   */
  function Token(s: string): (r: Option<string>)
    ensures r.Some? ==> |r.value| + 2 <= |s|
  {
    if s != [] && s[0] == '{' then
      var n := WordSpan(s[1..]);
      if 0 < n && n + 1 < |s| && s[n + 1] == '}' then Some(s[1..n + 1]) else None
    else None
  }

  /** What Token finds is a placeholder at the head of `s`. */
  lemma TokenSound(s: string)
    requires Token(s).Some?
    ensures IsIdentifier(Token(s).value)
    ensures s[..|Token(s).value| + 2] == "{" + Token(s).value + "}"
  {
    WordSpanMaximal(s[1..]);
  }

  /** Every placeholder at the head of `s` is found by Token: the scan misses no match. */
  lemma TokenComplete(s: string, n: nat)
    requires n <= |s|
    ensures IsPlaceholder(s[..n]) ==> Token(s) == Some(s[1..n - 1])
  {
    if IsPlaceholder(s[..n]) {
      var p := s[..n];
      forall k | 0 <= k < n - 2
        ensures IsWordChar(s[1..][k])
      {
        assert s[1..][k] == p[1..n - 1][k];
      }
      assert s[1..][n - 2] == p[n - 1];
      WordSpanExact(s[1..], n - 2);
    }
  }

  /** A placeholder written at the head of the text is what Token finds there. */
  lemma TokenAtPlaceholder(id: string, rest: string)
    requires IsIdentifier(id)
    ensures Token("{" + id + "}" + rest) == Some(id)
  {
    var s := "{" + id + "}" + rest;
    var n := |id| + 2;
    assert s[..n] == "{" + id + "}";
    assert s[..n][1..n - 1] == id;
    assert s[1..n - 1] == id;
    assert IsPlaceholder(s[..n]);
    TokenComplete(s, n);
  }

  /** Text that begins with a boundary character cannot complete a placeholder begun before it. */
  lemma TokenAppend(a: string, b: string)
    requires a != []
    requires b == [] || IsBoundary(b[0])
    ensures Token(a + b) == Token(a)
  {
    var s := a + b;
    assert s[0] == a[0];
    assert s[1..] == a[1..] + b;
    WordSpanAppend(a[1..], b);
    if a[0] == '{' {
      var n := WordSpan(a[1..]);
      if n + 1 < |a| {
        assert s[n + 1] == a[n + 1];
        assert s[1..n + 1] == a[1..n + 1];
      } else if b != [] {
        assert s[n + 1] == b[0];
      }
    }
  }

  // ---------------------------------------------------------------------------
  // Identifier extraction: `placeholder.replace('{', '').replace('}', '')`

  /** The position of the first `c` in `s`. */
  function IndexOf(s: string, c: char): (i: nat)
    requires c in s
    ensures i < |s| && s[i] == c && c !in s[..i]
  {
    if s[0] == c then 0 else 1 + IndexOf(s[1..], c)
  }

  /** `String.prototype.replace` with a one-character string pattern: drops the first `c`, if any. */
  function RemoveFirst(s: string, c: char): string {
    if s == [] then []
    else if s[0] == c then s[1..]
    else [s[0]] + RemoveFirst(s[1..], c)
  }

  /** RemoveFirst leaves a string without `c` alone and otherwise cuts out exactly its first `c`. */
  lemma {:induction false} RemoveFirstCutsFirst(s: string, c: char)
    ensures c !in s ==> RemoveFirst(s, c) == s
    ensures c in s ==> RemoveFirst(s, c) == s[..IndexOf(s, c)] + s[IndexOf(s, c) + 1..]
  {
    if s != [] && s[0] != c {
      RemoveFirstCutsFirst(s[1..], c);
      assert s == [s[0]] + s[1..];
      if c in s {
        assert c in s[1..];
        var i := IndexOf(s[1..], c);
        assert s[..i + 1] == [s[0]] + s[1..][..i];
        assert s[i + 2..] == s[1..][i + 1..];
      }
    }
  }

  /** The identifier of a placeholder: the first `{` and then the first `}` removed. */
  function ExtractId(placeholder: string): string {
    RemoveFirst(RemoveFirst(placeholder, '{'), '}')
  }

  /** Removing the first `}` from word characters followed by `}` leaves the word characters. */
  lemma {:induction false} RemoveCloseBrace(id: string)
    requires forall k :: 0 <= k < |id| ==> IsWordChar(id[k])
    ensures RemoveFirst(id + "}", '}') == id
  {
    if id != [] {
      assert (id + "}")[1..] == id[1..] + "}";
      RemoveCloseBrace(id[1..]);
    }
  }

  /** Stripping the braces of a placeholder yields exactly the word characters between them. */
  lemma ExtractIdOfPlaceholder(id: string)
    requires IsIdentifier(id)
    ensures ExtractId("{" + id + "}") == id
  {
    assert ("{" + id + "}")[1..] == id + "}";
    RemoveCloseBrace(id);
  }

  // ---------------------------------------------------------------------------
  // The replace callback

  /** `replacements[key] !== undefined`, as an optional value. */
  function Lookup(replacements: Replacements, key: string): (r: Option<string>)
    ensures r.Some? <==> key in replacements
    ensures r.Some? ==> r.value == replacements[key]
  {
    if key in replacements then Some(replacements[key]) else None
  }

  /** What the replace callback returns for one matched placeholder. */
  function Substitute(placeholder: string, replacements: Replacements): string {
    match Lookup(replacements, ExtractId(placeholder))
    case Some(v) => v
    case None => placeholder
  }

  /** The callback on a matched placeholder: its replacement if defined, else the placeholder itself. */
  lemma SubstitutePlaceholder(id: string, replacements: Replacements)
    requires IsIdentifier(id)
    ensures Substitute("{" + id + "}", replacements)
         == if id in replacements then replacements[id] else "{" + id + "}"
  {
    ExtractIdOfPlaceholder(id);
  }

  // ---------------------------------------------------------------------------
  // The global scan: the text cut into matches and the characters between them

  /** A piece of scanned text: a character outside every match, or the identifier of a match. */
  datatype Piece = Char(c: char) | Match(id: string)

  /**
   * `/\{\w+\}/g` applied left to right: at each position a whole match when
   * one starts there, and otherwise one character; the scan resumes right
   * after each match.
   */
  function Scan(t: string): seq<Piece>
    decreases |t|
  {
    if t == [] then []
    else match Token(t)
      case Some(id) => [Match(id)] + Scan(t[|id| + 2..])
      case None => [Char(t[0])] + Scan(t[1..])
  }

  /** The text a piece was cut from. */
  function PieceText(p: Piece): string {
    match p
    case Char(c) => [c]
    case Match(id) => "{" + id + "}"
  }

  /** The text a sequence of pieces was cut from. */
  function Text(ps: seq<Piece>): string {
    if ps == [] then [] else PieceText(ps[0]) + Text(ps[1..])
  }

  /** Every match in the sequence has a `\w+` identifier. */
  predicate WellFormed(ps: seq<Piece>) {
    ps == [] || ((ps[0].Match? ==> IsIdentifier(ps[0].id)) && WellFormed(ps[1..]))
  }

  /** What `replace` puts in place of a piece: the callback's result for a match, the character itself otherwise. */
  function PieceOutput(p: Piece, replacements: Replacements): string {
    match p
    case Char(c) => [c]
    case Match(id) => Substitute("{" + id + "}", replacements)
  }

  /** The output of `replace` for a sequence of pieces. */
  function Emit(ps: seq<Piece>, replacements: Replacements): string {
    if ps == [] then [] else PieceOutput(ps[0], replacements) + Emit(ps[1..], replacements)
  }

  /** `translation.replace(/\{\w+\}/g, callback)`. */
  function Interpolate(t: string, replacements: Replacements): string {
    Emit(Scan(t), replacements)
  }

  /** `render(translation, replacements)`: an omitted mapping stands for the empty one. */
  function Render(translation: string, replacements: Option<Replacements>): string {
    Interpolate(translation, replacements.GetOr(map[]))
  }

  /** The identifiers of the matches in a sequence of pieces, in order. */
  function Ids(ps: seq<Piece>): seq<string> {
    if ps == [] then [] else (if ps[0].Match? then [ps[0].id] else []) + Ids(ps[1..])
  }

  /** The identifiers of the placeholders the scan matches in `t`, in order. */
  function Placeholders(t: string): seq<string> {
    Ids(Scan(t))
  }

  /** The matched placeholders the callback finds no replacement for, in order. */
  ghost function Unresolved(ps: seq<Piece>, replacements: Replacements): seq<string> {
    if ps == [] then []
    else
      (if ps[0].Match? && Lookup(replacements, ExtractId("{" + ps[0].id + "}")).None?
       then ["{" + ps[0].id + "}"] else [])
      + Unresolved(ps[1..], replacements)
  }

  /** The placeholders reported by the "not all placeholders found" warning, in order. */
  ghost function Warnings(t: string, replacements: Replacements): seq<string> {
    Unresolved(Scan(t), replacements)
  }

  /** Every identifier in `ids` has a replacement. */
  predicate AllDefined(ids: seq<string>, replacements: Replacements) {
    forall k :: 0 <= k < |ids| ==> ids[k] in replacements
  }

  /** No identifier in `ids` has a replacement. */
  predicate NoneDefined(ids: seq<string>, replacements: Replacements) {
    forall k :: 0 <= k < |ids| ==> ids[k] !in replacements
  }

  /** Both predicates split over a concatenation. */
  lemma DefinedAppend(ids: seq<string>, more: seq<string>, replacements: Replacements)
    ensures AllDefined(ids + more, replacements) <==> AllDefined(ids, replacements) && AllDefined(more, replacements)
    ensures NoneDefined(ids + more, replacements) <==> NoneDefined(ids, replacements) && NoneDefined(more, replacements)
  {
    var all := ids + more;
    if AllDefined(ids, replacements) && AllDefined(more, replacements) {
      forall k | 0 <= k < |all| ensures all[k] in replacements {
        if k >= |ids| { assert all[k] == more[k - |ids|]; }
      }
    }
    if NoneDefined(ids, replacements) && NoneDefined(more, replacements) {
      forall k | 0 <= k < |all| ensures all[k] !in replacements {
        if k >= |ids| { assert all[k] == more[k - |ids|]; }
      }
    }
    assert forall k :: 0 <= k < |ids| ==> ids[k] == all[k];
    assert forall k :: 0 <= k < |more| ==> more[k] == all[|ids| + k];
  }

  // ---------------------------------------------------------------------------
  // The pieces partition the text

  /** Concatenation is associative; stated once so that proofs can regroup without unfolding. */
  lemma Assoc<T>(a: seq<T>, b: seq<T>, c: seq<T>)
    ensures a + (b + c) == a + b + c
  {
  }

  /** Dropping a prefix of `a` from `a + b`. */
  lemma DropAppend<T>(a: seq<T>, b: seq<T>, n: nat)
    requires n <= |a|
    ensures (a + b)[n..] == a[n..] + b
  {
  }

  /** Text, Ids and WellFormed at the head of a sequence of pieces. */
  lemma ConsPieces(p: Piece, ps: seq<Piece>)
    ensures Text([p] + ps) == PieceText(p) + Text(ps)
    ensures Ids([p] + ps) == (if p.Match? then [p.id] else []) + Ids(ps)
    ensures WellFormed([p] + ps) <==> (p.Match? ==> IsIdentifier(p.id)) && WellFormed(ps)
  {
    assert ([p] + ps)[0] == p;
    assert ([p] + ps)[1..] == ps;
  }

  /** Emit at the head of a sequence of pieces. */
  lemma EmitCons(p: Piece, ps: seq<Piece>, replacements: Replacements)
    ensures Emit([p] + ps, replacements) == PieceOutput(p, replacements) + Emit(ps, replacements)
  {
    assert ([p] + ps)[0] == p;
    assert ([p] + ps)[1..] == ps;
  }

  /** The first piece the scan cuts from `t`, and how much of `t` it covers. */
  lemma ScanHead(t: string) returns (p: Piece, n: nat)
    requires t != []
    ensures 0 < n <= |t|
    ensures Scan(t) == [p] + Scan(t[n..])
    ensures PieceText(p) == t[..n]
    ensures p.Match? ==> IsIdentifier(p.id)
    ensures Token(t).Some? ==> p == Match(Token(t).value) && n == |Token(t).value| + 2
    ensures Token(t).None? ==> p == Char(t[0]) && n == 1
  {
    match Token(t)
    case Some(id) =>
      TokenSound(t);
      p, n := Match(id), |id| + 2;
    case None =>
      p, n := Char(t[0]), 1;
  }

  /** Joining the pieces gives back the scanned text. */
  lemma {:induction false} ScanText(t: string)
    ensures Text(Scan(t)) == t
    decreases |t|
  {
    if t != [] {
      var p, n := ScanHead(t);
      calc {
        Text(Scan(t));
        { ConsPieces(p, Scan(t[n..])); }
        PieceText(p) + Text(Scan(t[n..]));
        { ScanText(t[n..]); }
        t[..n] + t[n..];
        t;
      }
    }
  }

  /** Every match the scan cuts out has a `\w+` identifier. */
  lemma {:induction false} ScanWellFormed(t: string)
    ensures WellFormed(Scan(t))
    decreases |t|
  {
    if t != [] {
      var p, n := ScanHead(t);
      ScanWellFormed(t[n..]);
      ConsPieces(p, Scan(t[n..]));
    }
  }

  /** Emit distributes over concatenation. */
  lemma {:induction false} EmitAppend(ps: seq<Piece>, qs: seq<Piece>, replacements: Replacements)
    ensures Emit(ps + qs, replacements) == Emit(ps, replacements) + Emit(qs, replacements)
    decreases |ps|
  {
    if ps == [] {
      assert ps + qs == qs;
    } else {
      var h := PieceOutput(ps[0], replacements);
      calc {
        Emit(ps + qs, replacements);
        { assert (ps + qs)[0] == ps[0]; assert (ps + qs)[1..] == ps[1..] + qs; }
        h + Emit(ps[1..] + qs, replacements);
        { EmitAppend(ps[1..], qs, replacements); }
        h + (Emit(ps[1..], replacements) + Emit(qs, replacements));
        { Assoc(h, Emit(ps[1..], replacements), Emit(qs, replacements)); }
        h + Emit(ps[1..], replacements) + Emit(qs, replacements);
      }
    }
  }

  /** Ids distributes over concatenation. */
  lemma {:induction false} IdsAppend(ps: seq<Piece>, qs: seq<Piece>)
    ensures Ids(ps + qs) == Ids(ps) + Ids(qs)
    decreases |ps|
  {
    if ps == [] {
      assert ps + qs == qs;
    } else {
      var h := if ps[0].Match? then [ps[0].id] else [];
      calc {
        Ids(ps + qs);
        { assert (ps + qs)[0] == ps[0]; assert (ps + qs)[1..] == ps[1..] + qs; }
        h + Ids(ps[1..] + qs);
        { IdsAppend(ps[1..], qs); }
        h + (Ids(ps[1..]) + Ids(qs));
        { Assoc(h, Ids(ps[1..]), Ids(qs)); }
        h + Ids(ps[1..]) + Ids(qs);
      }
    }
  }

  // ---------------------------------------------------------------------------
  // Text without resolvable placeholders passes through unchanged

  /** Pieces none of whose matches has a replacement are emitted as the text they were cut from. */
  lemma {:induction false} EmitUnmatched(ps: seq<Piece>, replacements: Replacements)
    requires WellFormed(ps) && NoneDefined(Ids(ps), replacements)
    ensures Emit(ps, replacements) == Text(ps)
    decreases |ps|
  {
    if ps != [] {
      var head := if ps[0].Match? then [ps[0].id] else [];
      DefinedAppend(head, Ids(ps[1..]), replacements);
      calc {
        Emit(ps, replacements);
        PieceOutput(ps[0], replacements) + Emit(ps[1..], replacements);
        {
          if ps[0].Match? {
            assert head[0] == ps[0].id;
            SubstitutePlaceholder(ps[0].id, replacements);
          }
        }
        PieceText(ps[0]) + Emit(ps[1..], replacements);
        { EmitUnmatched(ps[1..], replacements); }
        PieceText(ps[0]) + Text(ps[1..]);
        Text(ps);
      }
    }
  }

  /** When no matched placeholder has a replacement, rendering returns the template itself. */
  lemma InterpolateUnmatched(t: string, replacements: Replacements)
    requires NoneDefined(Placeholders(t), replacements)
    ensures Interpolate(t, replacements) == t
  {
    ScanText(t);
    ScanWellFormed(t);
    EmitUnmatched(Scan(t), replacements);
  }

  /** An empty (or omitted) replacement mapping leaves every template unchanged. */
  lemma InterpolateEmpty(t: string)
    ensures Interpolate(t, map[]) == t
    ensures Render(t, None) == t
  {
    InterpolateUnmatched(t, map[]);
  }

  /** A placeholder of a suffix of `t` is a placeholder of `t`. */
  lemma HasPlaceholderShift(t: string, m: nat)
    requires |t| >= m && HasPlaceholder(t[m..])
    ensures HasPlaceholder(t)
  {
    var i, j :| 0 <= i <= j <= |t[m..]| && IsPlaceholder(t[m..][i..j]);
    assert t[m..][i..j] == t[m + i..m + j];
  }

  /** A match at the head of the text is a placeholder of the text. */
  lemma TokenWitness(t: string)
    requires Token(t).Some?
    ensures HasPlaceholder(t)
  {
    TokenSound(t);
    var id := Token(t).value;
    assert t[0..|id| + 2] == "{" + id + "}";
    assert ("{" + id + "}")[1..|id| + 1] == id;
    assert IsPlaceholder(t[0..|id| + 2]);
  }

  /** With no match at its head, no prefix of `t` is a placeholder. */
  lemma NoTokenNoPrefix(t: string, j: nat)
    requires j <= |t| && Token(t).None?
    ensures !IsPlaceholder(t[0..j])
  {
    assert t[0..j] == t[..j];
    TokenComplete(t, j);
  }

  /** A slice of `t` that does not start at its head is a slice of its tail. */
  lemma SliceOfTail(t: string, i: nat, j: nat)
    requires 0 < i <= j <= |t|
    ensures t[i..j] == t[1..][i - 1..j - 1]
  {
    assert forall k :: 0 <= k < j - i ==> t[i..j][k] == t[1..][i - 1..j - 1][k];
  }

  /** With no match at its head, `t` holds a placeholder only if its tail does. */
  lemma NoTokenNoPlaceholder(t: string)
    requires t != [] && Token(t).None? && !HasPlaceholder(t[1..])
    ensures !HasPlaceholder(t)
  {
    forall i, j | 0 <= i <= j <= |t| ensures !IsPlaceholder(t[i..j]) {
      if i == 0 {
        NoTokenNoPrefix(t, j);
      } else {
        SliceOfTail(t, i, j);
      }
    }
  }

  /** The scan matches some placeholder exactly when the template contains one. */
  lemma {:induction false} PlaceholdersEmptyIff(t: string)
    ensures Placeholders(t) == [] <==> !HasPlaceholder(t)
    decreases |t|
  {
    if t == [] {
      forall i, j | 0 <= i <= j <= |t| ensures !IsPlaceholder(t[i..j]) { }
    } else {
      match Token(t)
      case Some(id) =>
        TokenWitness(t);
        ConsPieces(Match(id), Scan(t[|id| + 2..]));
      case None =>
        ConsPieces(Char(t[0]), Scan(t[1..]));
        PlaceholdersEmptyIff(t[1..]);
        if HasPlaceholder(t[1..]) {
          HasPlaceholderShift(t, 1);
        } else {
          NoTokenNoPlaceholder(t);
        }
    }
  }

  /** Text without an opening brace holds no placeholder and renders to itself. */
  lemma {:induction false} InterpolateNoBrace(t: string, replacements: Replacements)
    requires '{' !in t
    ensures Interpolate(t, replacements) == t
  {
    if t != [] {
      assert Token(t) == None;
      calc {
        Interpolate(t, replacements);
        { EmitCons(Char(t[0]), Scan(t[1..]), replacements); }
        [t[0]] + Interpolate(t[1..], replacements);
        { assert '{' !in t[1..]; InterpolateNoBrace(t[1..], replacements); }
        [t[0]] + t[1..];
        t;
      }
    }
  }

  /** A template with no `{\w+}` substring renders to itself under any replacements. */
  lemma InterpolatePlain(t: string, replacements: Replacements)
    requires !HasPlaceholder(t)
    ensures Interpolate(t, replacements) == t
  {
    PlaceholdersEmptyIff(t);
    InterpolateUnmatched(t, replacements);
  }

  // ---------------------------------------------------------------------------
  // Composition: the scan is left to right and never looks into substituted text

  /** The first piece cut from `a + b` is the first piece cut from `a`. */
  lemma ScanHeadAppend(a: string, b: string) returns (p: Piece, n: nat)
    requires a != []
    requires b == [] || IsBoundary(b[0])
    ensures 0 < n <= |a|
    ensures Scan(a) == [p] + Scan(a[n..])
    ensures Scan(a + b) == [p] + Scan(a[n..] + b)
  {
    TokenAppend(a, b);
    p, n := ScanHead(a);
    var p', n' := ScanHead(a + b);
    assert (a + b)[0] == a[0];
    assert p' == p && n' == n;
    DropAppend(a, b, n);
  }

  /** Scanning `a + b` scans `a` and then `b` when `b` begins with a boundary character. */
  lemma {:induction false} ScanAppend(a: string, b: string)
    requires b == [] || IsBoundary(b[0])
    ensures Scan(a + b) == Scan(a) + Scan(b)
    decreases |a|
  {
    if a == [] {
      assert a + b == b;
    } else {
      var p, n := ScanHeadAppend(a, b);
      calc {
        Scan(a + b);
        [p] + Scan(a[n..] + b);
        { ScanAppend(a[n..], b); }
        [p] + (Scan(a[n..]) + Scan(b));
        { Assoc([p], Scan(a[n..]), Scan(b)); }
        [p] + Scan(a[n..]) + Scan(b);
        Scan(a) + Scan(b);
      }
    }
  }

  /** Rendering distributes over a split in front of a boundary character. */
  lemma InterpolateAppend(a: string, b: string, replacements: Replacements)
    requires b == [] || IsBoundary(b[0])
    ensures Interpolate(a + b, replacements) == Interpolate(a, replacements) + Interpolate(b, replacements)
  {
    ScanAppend(a, b);
    EmitAppend(Scan(a), Scan(b), replacements);
  }

  /** A placeholder at the head of the text is scanned as one match. */
  lemma ScanAtPlaceholder(id: string, rest: string)
    requires IsIdentifier(id)
    ensures Scan("{" + id + "}" + rest) == [Match(id)] + Scan(rest)
  {
    var t := "{" + id + "}" + rest;
    TokenAtPlaceholder(id, rest);
    assert t[|id| + 2..] == rest;
  }

  /** A placeholder anywhere in the text is cut out as one match between the scans of the text on its two sides. */
  lemma ScanAround(prefix: string, id: string, suffix: string)
    requires IsIdentifier(id)
    ensures Scan(prefix + "{" + id + "}" + suffix) == Scan(prefix) + [Match(id)] + Scan(suffix)
  {
    var tail := "{" + id + "}" + suffix;
    calc {
      Scan(prefix + "{" + id + "}" + suffix);
      {
        Assoc(prefix, "{", id);
        Assoc(prefix, "{" + id, "}");
        Assoc(prefix, "{" + id + "}", suffix);
      }
      Scan(prefix + tail);
      { assert tail[0] == '{'; ScanAppend(prefix, tail); }
      Scan(prefix) + Scan(tail);
      { ScanAtPlaceholder(id, suffix); }
      Scan(prefix) + ([Match(id)] + Scan(suffix));
      { Assoc(Scan(prefix), [Match(id)], Scan(suffix)); }
      Scan(prefix) + [Match(id)] + Scan(suffix);
    }
  }

  /** A placeholder at the head of the text is matched whole and handed to the callback. */
  lemma InterpolateAtPlaceholder(id: string, rest: string, replacements: Replacements)
    requires IsIdentifier(id)
    ensures Interpolate("{" + id + "}" + rest, replacements)
         == (if id in replacements then replacements[id] else "{" + id + "}") + Interpolate(rest, replacements)
  {
    ScanAtPlaceholder(id, rest);
    EmitCons(Match(id), Scan(rest), replacements);
    SubstitutePlaceholder(id, replacements);
  }

  /**
   * Every placeholder, wherever it stands, becomes its replacement when one is
   * defined and stays verbatim otherwise; the text on either side is rendered
   * on its own, so a replacement value is never rescanned.
   */
  lemma InterpolateAround(prefix: string, id: string, suffix: string, replacements: Replacements)
    requires IsIdentifier(id)
    ensures Interpolate(prefix + "{" + id + "}" + suffix, replacements)
         == Interpolate(prefix, replacements)
          + (if id in replacements then replacements[id] else "{" + id + "}")
          + Interpolate(suffix, replacements)
  {
    var tail := "{" + id + "}" + suffix;
    var value := if id in replacements then replacements[id] else "{" + id + "}";
    calc {
      Interpolate(prefix + "{" + id + "}" + suffix, replacements);
      {
        Assoc(prefix, "{", id);
        Assoc(prefix, "{" + id, "}");
        Assoc(prefix, "{" + id + "}", suffix);
      }
      Interpolate(prefix + tail, replacements);
      { InterpolateAppend(prefix, tail, replacements); }
      Interpolate(prefix, replacements) + Interpolate(tail, replacements);
      { InterpolateAtPlaceholder(id, suffix, replacements); }
      Interpolate(prefix, replacements) + (value + Interpolate(suffix, replacements));
      { Assoc(Interpolate(prefix, replacements), value, Interpolate(suffix, replacements)); }
      Interpolate(prefix, replacements) + value + Interpolate(suffix, replacements);
    }
  }

  /** Single pass: a replacement value is copied as it is, even when it looks like a placeholder. */
  lemma SinglePass(id: string, value: string)
    requires IsIdentifier(id)
    ensures Interpolate("{" + id + "}", map[id := value]) == value
  {
    assert "{" + id + "}" == "{" + id + "}" + [];
    InterpolateAtPlaceholder(id, [], map[id := value]);
  }

  // ---------------------------------------------------------------------------
  // Diagnostics

  /** The callback warns about some match exactly when some match has no replacement. */
  lemma {:induction false} UnresolvedIff(ps: seq<Piece>, replacements: Replacements)
    requires WellFormed(ps)
    ensures Unresolved(ps, replacements) == [] <==> AllDefined(Ids(ps), replacements)
    decreases |ps|
  {
    if ps != [] {
      var head := if ps[0].Match? then [ps[0].id] else [];
      DefinedAppend(head, Ids(ps[1..]), replacements);
      if ps[0].Match? {
        ExtractIdOfPlaceholder(ps[0].id);
        assert head[0] == ps[0].id;
      }
      UnresolvedIff(ps[1..], replacements);
    }
  }

  /** A warning is reported exactly when some matched placeholder has no replacement. */
  lemma WarningsIffUnresolved(t: string, replacements: Replacements)
    ensures Warnings(t, replacements) == [] <==> AllDefined(Placeholders(t), replacements)
  {
    ScanWellFormed(t);
    UnresolvedIff(Scan(t), replacements);
  }

  /** Unresolved distributes over concatenation. */
  lemma {:induction false} UnresolvedAppend(ps: seq<Piece>, qs: seq<Piece>, replacements: Replacements)
    ensures Unresolved(ps + qs, replacements) == Unresolved(ps, replacements) + Unresolved(qs, replacements)
    decreases |ps|
  {
    if ps == [] {
      assert ps + qs == qs;
    } else {
      var h := if ps[0].Match? && Lookup(replacements, ExtractId("{" + ps[0].id + "}")).None?
               then ["{" + ps[0].id + "}"] else [];
      calc {
        Unresolved(ps + qs, replacements);
        { assert (ps + qs)[0] == ps[0]; assert (ps + qs)[1..] == ps[1..] + qs; }
        h + Unresolved(ps[1..] + qs, replacements);
        { UnresolvedAppend(ps[1..], qs, replacements); }
        h + (Unresolved(ps[1..], replacements) + Unresolved(qs, replacements));
        { Assoc(h, Unresolved(ps[1..], replacements), Unresolved(qs, replacements)); }
        h + Unresolved(ps[1..], replacements) + Unresolved(qs, replacements);
      }
    }
  }

  /** Text without an opening brace triggers no warning. */
  lemma {:induction false} WarningsNoBrace(t: string, replacements: Replacements)
    requires '{' !in t
    ensures Warnings(t, replacements) == []
  {
    if t != [] {
      assert Token(t) == None;
      var ps := Scan(t);
      assert ps == [Char(t[0])] + Scan(t[1..]);
      assert ps[1..] == Scan(t[1..]);
      assert '{' !in t[1..];
      WarningsNoBrace(t[1..], replacements);
    }
  }

  /**
   * A placeholder anywhere in the text is warned about, between the warnings
   * for the text on its two sides, exactly when it has no replacement.
   */
  lemma WarningsAround(prefix: string, id: string, suffix: string, replacements: Replacements)
    requires IsIdentifier(id)
    ensures Warnings(prefix + "{" + id + "}" + suffix, replacements)
         == Warnings(prefix, replacements)
          + (if id in replacements then [] else ["{" + id + "}"])
          + Warnings(suffix, replacements)
  {
    var w := if id in replacements then [] else ["{" + id + "}"];
    calc {
      Warnings(prefix + "{" + id + "}" + suffix, replacements);
      { ScanAround(prefix, id, suffix); }
      Unresolved(Scan(prefix) + [Match(id)] + Scan(suffix), replacements);
      { UnresolvedAppend(Scan(prefix) + [Match(id)], Scan(suffix), replacements); }
      Unresolved(Scan(prefix) + [Match(id)], replacements) + Warnings(suffix, replacements);
      { UnresolvedAppend(Scan(prefix), [Match(id)], replacements); }
      Warnings(prefix, replacements) + Unresolved([Match(id)], replacements) + Warnings(suffix, replacements);
      { UnresolvedMatch(id, replacements); }
      Warnings(prefix, replacements) + w + Warnings(suffix, replacements);
    }
  }

  /** A single match is warned about exactly when its identifier has no replacement. */
  lemma UnresolvedMatch(id: string, replacements: Replacements)
    requires IsIdentifier(id)
    ensures Unresolved([Match(id)], replacements) == (if id in replacements then [] else ["{" + id + "}"])
  {
    ExtractIdOfPlaceholder(id);
    assert [Match(id)][1..] == [];
  }

  /** Each placeholder the callback warns about is a whole placeholder with no replacement. */
  lemma {:induction false} UnresolvedMissing(ps: seq<Piece>, replacements: Replacements)
    requires WellFormed(ps)
    ensures forall k :: 0 <= k < |Unresolved(ps, replacements)| ==>
              IsPlaceholder(Unresolved(ps, replacements)[k])
              && ExtractId(Unresolved(ps, replacements)[k]) !in replacements
    decreases |ps|
  {
    if ps != [] {
      UnresolvedMissing(ps[1..], replacements);
      var head := if ps[0].Match? && Lookup(replacements, ExtractId("{" + ps[0].id + "}")).None?
                  then ["{" + ps[0].id + "}"] else [];
      var rest := Unresolved(ps[1..], replacements);
      if ps[0].Match? {
        var id := ps[0].id;
        ExtractIdOfPlaceholder(id);
        assert ("{" + id + "}")[1..|id| + 1] == id;
      }
      assert Unresolved(ps, replacements) == head + rest;
      forall k | 0 <= k < |head + rest|
        ensures IsPlaceholder((head + rest)[k]) && ExtractId((head + rest)[k]) !in replacements
      {
        if k < |head| {
          assert (head + rest)[k] == head[k];
        } else {
          assert (head + rest)[k] == rest[k - |head|];
        }
      }
    }
  }

  /** Every warning names a whole placeholder of the template whose identifier has no replacement. */
  lemma WarningsAreUnresolved(t: string, replacements: Replacements)
    ensures forall k :: 0 <= k < |Warnings(t, replacements)| ==>
              IsPlaceholder(Warnings(t, replacements)[k]) && ExtractId(Warnings(t, replacements)[k]) !in replacements
  {
    ScanWellFormed(t);
    UnresolvedMissing(Scan(t), replacements);
  }

  // ---------------------------------------------------------------------------
  // Worked examples

  /** A single character never starts a match: it is copied and matches nothing. */
  lemma CharAlone(c: char, replacements: Replacements)
    ensures Placeholders([c]) == []
    ensures Interpolate([c], replacements) == [c]
  {
    assert [c][1..] == [];
    assert Token([c]) == None;
    assert Scan([c]) == [Char(c)] + [];
    ConsPieces(Char(c), []);
    EmitCons(Char(c), [], replacements);
    assert [c] == [c] + [];
  }

  /** In `{{id}}` the scan matches only the inner `{id}`. */
  lemma NestedPlaceholders(id: string)
    requires IsIdentifier(id)
    ensures Placeholders("{" + "{" + id + "}" + "}") == [id]
  {
    var t := "{" + "{" + id + "}" + "}";
    assert t == "{" + ("{" + id + "}" + "}");
    ScanAppend("{", "{" + id + "}" + "}");
    IdsAppend(Scan("{"), Scan("{" + id + "}" + "}"));
    CharAlone('{', map[]);
    ScanAtPlaceholder(id, "}");
    ConsPieces(Match(id), Scan("}"));
    CharAlone('}', map[]);
  }

  /** `{{id}}` renders as the replacement of `id` between the two outer braces. */
  lemma NestedInterpolate(id: string, replacements: Replacements)
    requires IsIdentifier(id) && id in replacements
    ensures Interpolate("{" + "{" + id + "}" + "}", replacements) == "{" + replacements[id] + "}"
  {
    InterpolateAround("{", id, "}", replacements);
    CharAlone('{', replacements);
    CharAlone('}', replacements);
  }

  /**
   * Resolving every placeholder does not guarantee a result free of
   * placeholders: braces around a placeholder survive the scan and close
   * around its replacement. With `id := "a"` and `value := "x"`, `"{{a}}"`
   * renders as the placeholder `"{x}"`.
   */
  lemma ResolvedOutputMayHoldPlaceholder(id: string, value: string)
    requires IsIdentifier(id) && IsIdentifier(value)
    ensures Placeholders("{" + "{" + id + "}" + "}") == [id]
    ensures AllDefined(Placeholders("{" + "{" + id + "}" + "}"), map[id := value])
    ensures Interpolate("{" + "{" + id + "}" + "}", map[id := value]) == "{" + value + "}"
    ensures IsPlaceholder("{" + value + "}")
  {
    NestedPlaceholders(id);
    NestedInterpolate(id, map[id := value]);
    assert ("{" + value + "}")[1..|value| + 1] == value;
  }

  /** A defined placeholder is substituted and a later undefined one is kept, with the text around both copied. */
  lemma KnownThenUnknown(prefix: string, known: string, mid: string, unknown: string, replacements: Replacements)
    requires '{' !in prefix && '{' !in mid
    requires IsIdentifier(known) && IsIdentifier(unknown)
    requires known in replacements && unknown !in replacements
    ensures Interpolate(prefix + "{" + known + "}" + mid + "{" + unknown + "}", replacements)
         == prefix + replacements[known] + mid + "{" + unknown + "}"
    ensures Warnings(prefix + "{" + known + "}" + mid + "{" + unknown + "}", replacements) == ["{" + unknown + "}"]
  {
    var head := prefix + "{" + known + "}" + mid;
    InterpolateAround(prefix, known, mid, replacements);
    InterpolateNoBrace(prefix, replacements);
    InterpolateNoBrace(mid, replacements);
    assert head + "{" + unknown + "}" + [] == head + "{" + unknown + "}";
    InterpolateAround(head, unknown, [], replacements);
    WarningsAround(prefix, known, mid, replacements);
    WarningsNoBrace(prefix, replacements);
    WarningsNoBrace(mid, replacements);
    WarningsAround(head, unknown, [], replacements);
  }

  /**
   * `"Hi {name}, {unknown}"` with only `name` defined substitutes `name`,
   * keeps `{unknown}` and warns about `{unknown}` alone.
   */
  lemma UnknownPlaceholderKept(value: string)
    ensures Interpolate("Hi " + "{" + "name" + "}" + ", " + "{" + "unknown" + "}", map["name" := value])
         == "Hi " + value + ", " + "{" + "unknown" + "}"
    ensures Warnings("Hi " + "{" + "name" + "}" + ", " + "{" + "unknown" + "}", map["name" := value])
         == ["{" + "unknown" + "}"]
  {
    assert IsIdentifier("name") && IsIdentifier("unknown");
    KnownThenUnknown("Hi ", "name", ", ", "unknown", map["name" := value]);
  }
}
