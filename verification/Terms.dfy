/** The tokenizer of `probe.rs` and the term normalisation of `compiler.rs`, on UTF-8 bytes. */
module Terms {
  import opened Results
  import opened Sorting

  // ---------------------------------------------------------------- byte order of strings

  predicate Lex(a: Bytes, b: Bytes) {
    if a == [] then true
    else if b == [] then false
    else a[0] < b[0] || (a[0] == b[0] && Lex(a[1..], b[1..]))
  }

  lemma {:induction false} LexTotal(a: Bytes, b: Bytes)
    ensures Lex(a, b) || Lex(b, a)
    ensures Lex(a, b) && Lex(b, a) ==> a == b
  {
    if a != [] && b != [] && a[0] == b[0] {
      LexTotal(a[1..], b[1..]);
      assert a == [a[0]] + a[1..] && b == [b[0]] + b[1..];
    }
  }

  lemma {:induction false} LexTransitive(a: Bytes, b: Bytes, c: Bytes)
    requires Lex(a, b) && Lex(b, c)
    ensures Lex(a, c)
  {
    if a != [] && a[0] == b[0] && b[0] == c[0] {
      LexTransitive(a[1..], b[1..], c[1..]);
    }
  }

  lemma LexIsOrder()
    ensures TotalPreorder(Lex)
    ensures forall a, b :: Lex(a, b) && Lex(b, a) ==> a == b
  {
    forall a: Bytes, b: Bytes ensures Lex(a, b) || Lex(b, a) { LexTotal(a, b); }
    forall a: Bytes, b: Bytes, c: Bytes | Lex(a, b) && Lex(b, c) ensures Lex(a, c) { LexTransitive(a, b, c); }
    forall a: Bytes, b: Bytes | Lex(a, b) && Lex(b, a) ensures a == b { LexTotal(a, b); }
  }

  // ---------------------------------------------------------------- bytes

  function Lower(b: byte): byte {
    if 'A' as int <= b <= 'Z' as int then b + 32 else b
  }

  function LowerAll(text: Bytes): (r: Bytes)
    ensures |r| == |text|
  {
    seq(|text|, i requires 0 <= i < |text| => Lower(text[i]))
  }

  /** The punctuation kept inside a token and trimmed from its ends. */
  predicate IsJoiner(b: byte) {
    b == '.' as int || b == '-' as int || b == '_' as int || b == ':' as int || b == '/' as int || b == '@' as int
  }

  predicate IsAlphanumeric(b: byte) {
    '0' as int <= b <= '9' as int || 'A' as int <= b <= 'Z' as int || 'a' as int <= b <= 'z' as int
  }

  predicate IsTokenByte(b: byte) {
    IsAlphanumeric(b) || IsJoiner(b)
  }

  // ---------------------------------------------------------------- tokens

  /** Maximal runs of token bytes, `token` being the run in progress. */
  function Tokens(text: Bytes, token: Bytes): seq<Bytes>
    decreases |text|
  {
    if text == [] then (if token == [] then [] else [token])
    else if IsTokenByte(text[0]) then Tokens(text[1..], token + [text[0]])
    else (if token == [] then [] else [token]) + Tokens(text[1..], [])
  }

  function TrimStart(t: Bytes): (r: Bytes)
    ensures r != [] ==> !IsJoiner(r[0])
    ensures |r| <= |t| && r == t[|t| - |r|..]
  {
    if t != [] && IsJoiner(t[0]) then TrimStart(t[1..]) else t
  }

  function TrimEnd(t: Bytes): (r: Bytes)
    ensures r != [] ==> !IsJoiner(r[|r| - 1])
    ensures r <= t
  {
    if t != [] && IsJoiner(t[|t| - 1]) then TrimEnd(t[..|t| - 1]) else t
  }

  function Trim(t: Bytes): Bytes {
    TrimEnd(TrimStart(t))
  }

  /** `BTreeSet::insert`, on the set listed in order. */
  function SetInsert(terms: seq<Bytes>, t: Bytes): seq<Bytes> {
    if t in terms then terms else Insert(t, terms, Lex)
  }

  function MaybePush(terms: seq<Bytes>, token: Bytes): seq<Bytes> {
    if |Trim(token)| >= 3 then SetInsert(terms, Trim(token)) else terms
  }

  function PushAll(terms: seq<Bytes>, tokens: seq<Bytes>): seq<Bytes>
    decreases |tokens|
  {
    if tokens == [] then terms else PushAll(MaybePush(terms, tokens[0]), tokens[1..])
  }

  function ExtractTerms(text: Bytes): seq<Bytes> {
    PushAll([], Tokens(LowerAll(text), []))
  }

  /** The scanning loop of `extract_terms`. */
  method Extract(text: Bytes) returns (terms: seq<Bytes>)
    ensures terms == ExtractTerms(text)
    ensures forall t :: t in terms <==> FoundIn(text, t)
  {
    forall t ensures t in ExtractTerms(text) <==> FoundIn(text, t) { ExtractedExactly(text, t); }
    hide FoundIn;
    terms := [];
    var normalized := LowerAll(text);
    var token: Bytes := [];
    for i := 0 to |normalized|
      invariant PushAll(terms, Tokens(normalized[i..], token)) == ExtractTerms(text)
    {
      var ch := normalized[i];
      assert normalized[i..][0] == ch && normalized[i..][1..] == normalized[i + 1..];
      if IsTokenByte(ch) {
        token := token + [ch];
      } else if token != [] {
        assert ([token] + Tokens(normalized[i + 1..], []))[1..] == Tokens(normalized[i + 1..], []);
        terms := MaybePush(terms, token);
        token := [];
      } else {
        assert [] + Tokens(normalized[i + 1..], []) == Tokens(normalized[i + 1..], []);
      }
    }
    if token != [] {
      assert [token][1..] == [];
      terms := MaybePush(terms, token);
    }
  }

  // ---------------------------------------------------------------- what a term is

  predicate IsTerm(t: Bytes) {
    && |t| >= 3 && !IsJoiner(t[0]) && !IsJoiner(t[|t| - 1])
    && forall i :: 0 <= i < |t| ==> IsTokenByte(t[i]) && Lower(t[i]) == t[i]
  }

  ghost predicate CleanToken(t: Bytes) {
    forall i :: 0 <= i < |t| ==> IsTokenByte(t[i]) && Lower(t[i]) == t[i]
  }

  lemma {:induction false} TokensAreClean(text: Bytes, token: Bytes)
    requires CleanToken(token) && forall i :: 0 <= i < |text| ==> Lower(text[i]) == text[i]
    ensures forall t :: t in Tokens(text, token) ==> CleanToken(t)
    decreases |text|
  {
    if text != [] {
      assert Lower(text[0]) == text[0];
      TokensAreClean(text[1..], if IsTokenByte(text[0]) then token + [text[0]] else []);
    }
  }

  /** The invariant of the growing set: sorted, duplicate-free, terms only. */
  ghost predicate TermList(terms: seq<Bytes>) {
    SortedBy(terms, Lex) && Distinct(terms) && forall t :: t in terms ==> IsTerm(t)
  }

  lemma SetInsertKeeps(terms: seq<Bytes>, t: Bytes)
    requires TermList(terms) && IsTerm(t)
    ensures TermList(SetInsert(terms, t))
    ensures forall x :: x in SetInsert(terms, t) <==> x in terms || x == t
  {
    if t !in terms {
      LexIsOrder();
      InsertSorted(t, terms, Lex);
      InsertElements(t, terms, Lex);
      SameElements(Insert(t, terms, Lex), [t] + terms);
      DistinctPermutation(Insert(t, terms, Lex), [t] + terms);
    }
  }

  lemma MaybePushKeeps(terms: seq<Bytes>, token: Bytes)
    requires TermList(terms) && CleanToken(token)
    ensures TermList(MaybePush(terms, token))
  {
    hide TermList, SetInsert, Trim, IsTerm, CleanToken;
    if |Trim(token)| >= 3 {
      TrimmedIsTerm(token);
      SetInsertKeeps(terms, Trim(token));
    }
  }

  lemma TrimmedIsTerm(token: Bytes)
    requires CleanToken(token) && |Trim(token)| >= 3
    ensures IsTerm(Trim(token))
  {
    hide IsTokenByte, Lower, IsJoiner, TrimStart, TrimEnd;
    var start, term := TrimStart(token), Trim(token);
    assert term[0] == start[0];
    forall i | 0 <= i < |term| ensures IsTokenByte(term[i]) && Lower(term[i]) == term[i] {
      assert term[i] == start[i] == token[|token| - |start| + i];
    }
  }

  lemma {:induction false} PushAllKeeps(terms: seq<Bytes>, tokens: seq<Bytes>)
    requires TermList(terms) && forall t :: t in tokens ==> CleanToken(t)
    ensures TermList(PushAll(terms, tokens))
    decreases |tokens|
  {
    hide TermList, MaybePush, CleanToken;
    if tokens != [] {
      MaybePushKeeps(terms, tokens[0]);
      PushAllKeeps(MaybePush(terms, tokens[0]), tokens[1..]);
    }
  }

  lemma LowerTwice(text: Bytes)
    ensures LowerAll(LowerAll(text)) == LowerAll(text)
  {
  }

  lemma ExtractGivesTerms(text: Bytes)
    ensures TermList(ExtractTerms(text))
  {
    var lower := LowerAll(text);
    LowerTwice(text);
    assert forall i :: 0 <= i < |lower| ==> Lower(lower[i]) == LowerAll(lower)[i] == lower[i];
    TokensAreClean(lower, []);
    PushAllKeeps([], Tokens(lower, []));
  }

  // ---------------------------------------------------------------- the fixpoint

  lemma {:induction false} SingleToken(text: Bytes, token: Bytes)
    requires CleanToken(text) && token + text != []
    ensures Tokens(text, token) == [token + text]
    decreases |text|
  {
    if text == [] {
      assert token + text == token;
    } else {
      SingleToken(text[1..], token + [text[0]]);
      assert token + [text[0]] + text[1..] == token + text;
    }
  }

  /** Extracting terms from a term gives that term and no other. */
  lemma ExtractOfTerm(t: Bytes)
    requires IsTerm(t)
    ensures ExtractTerms(t) == [t]
  {
    LowerOfTerm(t);
    SingleToken(t, []);
    PushFirst(t);
    hide LowerAll, Tokens, Trim, IsTerm, MaybePush, CleanToken;
    assert [] + t == t;
    PushOne([], t);
  }

  lemma PushFirst(t: Bytes)
    requires IsTerm(t)
    ensures MaybePush([], t) == [t]
  {
    TrimOfTerm(t);
    hide Trim;
    assert [t] + [] == [t];
  }

  lemma LowerOfTerm(t: Bytes)
    requires IsTerm(t)
    ensures LowerAll(t) == t
  {
  }

  lemma TrimOfTerm(t: Bytes)
    requires IsTerm(t)
    ensures Trim(t) == t
  {
    assert TrimStart(t) == t && TrimEnd(t) == t;
  }

  lemma PushOne(terms: seq<Bytes>, token: Bytes)
    ensures PushAll(terms, [token]) == MaybePush(terms, token)
  {
    hide MaybePush;
    assert [token][1..] == [];
    assert PushAll(MaybePush(terms, token), []) == MaybePush(terms, token);
  }

  function FlatTerms(values: seq<Bytes>): seq<Bytes> {
    if values == [] then [] else ExtractTerms(values[0]) + FlatTerms(values[1..])
  }

  /** `normalize_terms`: extract from every value, sort, dedup. */
  function Normalize(values: seq<Bytes>): seq<Bytes> {
    Dedup(SortBy(FlatTerms(values), Lex))
  }

  /** The loop behind `flat_map`. */
  method NormalizeTerms(values: seq<Bytes>) returns (out: seq<Bytes>)
    ensures out == Normalize(values)
    ensures forall t :: t in out <==> exists v :: v in values && FoundIn(v, t)
  {
    hide FoundIn, ExtractTerms, SortBy, Dedup;
    forall t ensures t in Normalize(values) <==> exists v :: v in values && FoundIn(v, t) { NormalizedExactly(values, t); }
    out := [];
    for i := 0 to |values|
      invariant out + FlatTerms(values[i..]) == FlatTerms(values)
    {
      assert values[i..][0] == values[i] && values[i..][1..] == values[i + 1..];
      var terms := Extract(values[i]);
      assert out + (terms + FlatTerms(values[i + 1..])) == (out + terms) + FlatTerms(values[i + 1..]);
      out := out + terms;
    }
    assert out + [] == out;
    out := Dedup(SortBy(out, Lex));
  }

  lemma {:induction false} FlatTermsAreTerms(values: seq<Bytes>)
    ensures forall t :: t in FlatTerms(values) ==> IsTerm(t)
  {
    if values != [] {
      ExtractGivesTerms(values[0]);
      FlatTermsAreTerms(values[1..]);
    }
  }

  lemma {:induction false} FlatTermsOfTerms(values: seq<Bytes>)
    requires forall t :: t in values ==> IsTerm(t)
    ensures FlatTerms(values) == values
  {
    if values != [] {
      ExtractOfTerm(values[0]);
      FlatTermsOfTerms(values[1..]);
      assert values == [values[0]] + values[1..];
    }
  }

  lemma NormalizeGivesTerms(values: seq<Bytes>)
    ensures TermList(Normalize(values))
  {
    var flat := FlatTerms(values);
    FlatTermsAreTerms(values);
    LexIsOrder();
    SortElements(flat, Lex);
    SortSorts(flat, Lex);
    DedupSorted(SortBy(flat, Lex), Lex);
    DedupElements(SortBy(flat, Lex));
  }

  /** A list is a fixpoint of normalisation exactly when it is a sorted, duplicate-free list of terms. */
  lemma NormalizeFixpoint(values: seq<Bytes>)
    ensures Normalize(values) == values <==> TermList(values)
  {
    NormalizeGivesTerms(values);
    if TermList(values) {
      FlatTermsOfTerms(values);
      SortOfSorted(values, Lex);
      DedupOfDistinct(values);
    }
  }

  lemma NormalizeIdempotent(values: seq<Bytes>)
    ensures Normalize(Normalize(values)) == Normalize(values)
  {
    NormalizeGivesTerms(values);
    NormalizeFixpoint(Normalize(values));
  }

  // ---------------------------------------------------------------- which terms are found

  /** The classes by their characters: digits and letters, six joiners, and the rest, which ends a token. */
  lemma ByteClasses(b: byte)
    ensures IsJoiner(b) <==> b in {0x2d, 0x2e, 0x2f, 0x3a, 0x40, 0x5f}
    ensures IsTokenByte(b) <==> IsJoiner(b) || 0x30 <= b <= 0x39 || 0x61 <= Lower(b) <= 0x7a
    ensures Lower(b) == if 0x41 <= b <= 0x5a then b + 0x20 else b
  {
  }

  /** `text[i..j]` is a maximal run of token bytes. */
  predicate RunAt(text: Bytes, i: nat, j: nat) {
    && i < j <= |text| && (forall k :: i <= k < j ==> IsTokenByte(text[k]))
    && (i == 0 || !IsTokenByte(text[i - 1])) && (j == |text| || !IsTokenByte(text[j]))
  }

  /** Joiners from `i` to `a` and from `b` to `j`, none at either end between. */
  predicate CutAt(text: Bytes, i: nat, a: nat, b: nat, j: nat) {
    && i <= a < b <= j <= |text| && !IsJoiner(text[a]) && !IsJoiner(text[b - 1])
    && (forall k :: i <= k < a ==> IsJoiner(text[k])) && forall k :: b <= k < j ==> IsJoiner(text[k])
  }

  /** `t` is some run of the text, stripped of joiners at both ends and lower-cased, three bytes long at least. */
  ghost predicate FoundIn(text: Bytes, t: Bytes) {
    |t| >= 3 && exists i: nat, a: nat, b: nat, j: nat :: FoundAt(text, i, a, b, j, t)
  }

  predicate FoundAt(text: Bytes, i: nat, a: nat, b: nat, j: nat, t: Bytes) {
    RunAt(text, i, j) && CutAt(text, i, a, b, j) && t == LowerAll(text[a..b])
  }

  predicate RunOf(n: Bytes, i: nat, j: nat, t: Bytes) {
    RunAt(n, i, j) && t == n[i..j]
  }

  ghost predicate IsRun(n: Bytes, from: nat, t: Bytes) {
    exists i: nat, j: nat :: from <= i && RunOf(n, i, j, t)
  }

  lemma {:induction false} TokensAreRuns(n: Bytes, s: nat, at: nat, t: Bytes)
    requires s <= at <= |n| && (s == 0 || !IsTokenByte(n[s - 1])) && forall k :: s <= k < at ==> IsTokenByte(n[k])
    ensures t in Tokens(n[at..], n[s..at]) <==> IsRun(n, s, t)
    decreases |n| - at
  {
    hide IsTokenByte;
    if at == |n| {
      LastRun(n, s, t);
    } else {
      assert n[at..][0] == n[at] && n[at..][1..] == n[at + 1..];
      if IsTokenByte(n[at]) {
        TokensAreRuns(n, s, at + 1, t);
        assert n[s..at] + [n[at]] == n[s..at + 1];
      } else {
        TokensAreRuns(n, at + 1, at + 1, t);
        assert n[at + 1..at + 1] == [];
        RunEnds(n, s, at, t);
      }
    }
  }

  lemma LastRun(n: Bytes, s: nat, t: Bytes)
    requires s <= |n| && (s == 0 || !IsTokenByte(n[s - 1])) && forall k :: s <= k < |n| ==> IsTokenByte(n[k])
    ensures IsRun(n, s, t) <==> s < |n| && t == n[s..]
  {
    hide IsTokenByte;
    if s < |n| { assert RunAt(n, s, |n|) && n[s..|n|] == n[s..]; }
    if s < |n| && t == n[s..] { assert RunOf(n, s, |n|, t); }
  }

  lemma RunEnds(n: Bytes, s: nat, at: nat, t: Bytes)
    requires s <= at < |n| && !IsTokenByte(n[at])
    requires (s == 0 || !IsTokenByte(n[s - 1])) && forall k :: s <= k < at ==> IsTokenByte(n[k])
    ensures IsRun(n, s, t) <==> (s < at && t == n[s..at]) || IsRun(n, at + 1, t)
  {
    hide IsTokenByte;
    if s < at && t == n[s..at] { assert RunOf(n, s, at, t); }
    if i: nat, j: nat :| at + 1 <= i && RunOf(n, i, j, t) { assert IsRun(n, s, t); }
    if i: nat, j: nat :| s <= i && RunOf(n, i, j, t) {
      if i > at { assert IsRun(n, at + 1, t); } else { assert i == s && j == at; }
    }
  }

  lemma Inserted(terms: seq<Bytes>, w: Bytes, t: Bytes)
    ensures t in SetInsert(terms, w) <==> t in terms || t == w
  {
    if w !in terms {
      InsertElements(w, terms, Lex);
      assert t in multiset(Insert(w, terms, Lex)) <==> t in multiset(terms) + multiset{w};
    }
  }

  lemma {:induction false} PushedAll(terms: seq<Bytes>, tokens: seq<Bytes>, t: Bytes)
    ensures t in PushAll(terms, tokens) <==> t in terms || (|t| >= 3 && exists w :: w in tokens && t == Trim(w))
    decreases |tokens|
  {
    hide Trim;
    if tokens != [] {
      PushedAll(MaybePush(terms, tokens[0]), tokens[1..], t);
      Inserted(terms, Trim(tokens[0]), t);
      hide SetInsert;
      assert forall w :: w in tokens <==> w == tokens[0] || w in tokens[1..];
    }
  }

  lemma {:induction false} TrimStartAt(t: Bytes, a: nat)
    requires a < |t| && !IsJoiner(t[a]) && forall k :: 0 <= k < a ==> IsJoiner(t[k])
    ensures TrimStart(t) == t[a..]
    decreases a
  {
    hide IsJoiner;
    if a > 0 {
      assert IsJoiner(t[0]);
      TrimStartAt(t[1..], a - 1);
    }
  }

  lemma {:induction false} TrimEndAt(t: Bytes, b: nat)
    requires 0 < b <= |t| && !IsJoiner(t[b - 1]) && forall k :: b <= k < |t| ==> IsJoiner(t[k])
    ensures TrimEnd(t) == t[..b]
    decreases |t|
  {
    hide IsJoiner;
    if b < |t| {
      assert IsJoiner(t[|t| - 1]);
      TrimEndAt(t[..|t| - 1], b);
      assert t[..|t| - 1][..b] == t[..b];
    } else {
      assert t[..b] == t;
    }
  }

  /** What trimming leaves, if it leaves anything, is the cut. */
  lemma TrimIsCut(n: Bytes, i: nat, j: nat) returns (a: nat, b: nat)
    requires i < j <= |n| && Trim(n[i..j]) != []
    ensures CutAt(n, i, a, b, j) && Trim(n[i..j]) == n[a..b]
  {
    hide Trim;
    a, b := TrimPlaces(n[i..j]);
    CutShifts(n, i, j, a, b);
    a, b := i + a, i + b;
  }

  lemma CutShifts(n: Bytes, i: nat, j: nat, a: nat, b: nat)
    requires i < j <= |n|
    ensures CutAt(n[i..j], 0, a, b, j - i) <==> CutAt(n, i, i + a, i + b, j)
    ensures a <= b <= j - i ==> n[i..j][a..b] == n[i + a..i + b]
  {
    hide IsJoiner;
    var w := n[i..j];
    forall k | 0 <= k < j - i ensures w[k] == n[i + k] {}
    if CutAt(w, 0, a, b, j - i) {
      forall k | i <= k < i + a ensures IsJoiner(n[k]) { assert IsJoiner(w[k - i]); }
      forall k | i + b <= k < j ensures IsJoiner(n[k]) { assert IsJoiner(w[k - i]); }
    }
    if CutAt(n, i, i + a, i + b, j) {
      forall k | 0 <= k < a ensures IsJoiner(w[k]) { assert IsJoiner(n[i + k]); }
      forall k | b <= k < j - i ensures IsJoiner(w[k]) { assert IsJoiner(n[i + k]); }
    }
  }

  lemma TrimPlaces(w: Bytes) returns (a: nat, b: nat)
    requires Trim(w) != []
    ensures CutAt(w, 0, a, b, |w|) && Trim(w) == w[a..b]
  {
    hide TrimStart, TrimEnd, IsJoiner;
    var start := TrimStart(w);
    a, b := |w| - |start|, |w| - |start| + |TrimEnd(start)|;
    TrimmedAreJoiners(w);
    EndTrimmedAreJoiners(start);
    Inside(w, start, TrimEnd(start), a, b);
    forall k | b <= k < |w| ensures IsJoiner(w[k]) { assert w[k] == start[k - a]; }
  }

  lemma Inside(w: Bytes, start: Bytes, end: Bytes, a: nat, b: nat)
    requires |start| <= |w| && start == w[|w| - |start|..] && end <= start && end != []
    requires a == |w| - |start| && b == a + |end|
    ensures end == w[a..b] && w[a] == start[0] && w[b - 1] == end[|end| - 1] && start != []
    ensures start[0] == end[0]
  {
  }

  lemma {:induction false} TrimmedAreJoiners(w: Bytes)
    ensures forall k :: 0 <= k < |w| - |TrimStart(w)| ==> IsJoiner(w[k])
    decreases |w|
  {
    hide IsJoiner;
    if w != [] && IsJoiner(w[0]) {
      TrimmedAreJoiners(w[1..]);
      forall k | 0 <= k < |w| - |TrimStart(w)| ensures IsJoiner(w[k]) {
        if k > 0 { assert w[k] == w[1..][k - 1]; }
      }
    }
  }

  lemma {:induction false} EndTrimmedAreJoiners(w: Bytes)
    ensures forall k :: |TrimEnd(w)| <= k < |w| ==> IsJoiner(w[k])
    decreases |w|
  {
    hide IsJoiner;
    if w != [] && IsJoiner(w[|w| - 1]) {
      EndTrimmedAreJoiners(w[..|w| - 1]);
      forall k | |TrimEnd(w)| <= k < |w| ensures IsJoiner(w[k]) {
        if k < |w| - 1 { assert w[k] == w[..|w| - 1][k]; }
      }
    }
  }

  lemma CutIsTrim(n: Bytes, i: nat, a: nat, b: nat, j: nat)
    requires CutAt(n, i, a, b, j)
    ensures Trim(n[i..j]) == n[a..b]
  {
    hide IsJoiner, TrimStart, TrimEnd;
    CutShifts(n, i, j, a - i, b - i);
    WholeCut(n[i..j], a - i, b - i);
  }

  lemma WholeCut(w: Bytes, a: nat, b: nat)
    requires CutAt(w, 0, a, b, |w|)
    ensures Trim(w) == w[a..b]
  {
    hide IsJoiner, TrimStart, TrimEnd;
    TrimStartAt(w, a);
    var start := w[a..];
    forall k | b - a <= k < |start| ensures IsJoiner(start[k]) { assert start[k] == w[a + k]; }
    TrimEndAt(start, b - a);
    assert start[..b - a] == w[a..b];
  }

  /** Lower-casing moves neither runs nor cuts. */
  lemma LowerKeepsRun(text: Bytes, i: nat, j: nat)
    ensures RunAt(LowerAll(text), i, j) <==> RunAt(text, i, j)
  {
    LowerKeepsClasses(text);
    hide IsTokenByte, Lower;
  }

  lemma LowerKeepsCut(text: Bytes, i: nat, a: nat, b: nat, j: nat)
    ensures CutAt(LowerAll(text), i, a, b, j) <==> CutAt(text, i, a, b, j)
  {
    LowerKeepsClasses(text);
    hide IsJoiner, Lower;
  }

  lemma LowerKeepsClasses(text: Bytes)
    ensures forall k :: 0 <= k < |text| ==> IsTokenByte(LowerAll(text)[k]) == IsTokenByte(text[k])
    ensures forall k :: 0 <= k < |text| ==> IsJoiner(LowerAll(text)[k]) == IsJoiner(text[k])
  {
  }

  /** A term is extracted exactly when it is found in the text. */
  lemma ExtractedExactly(text: Bytes, t: Bytes)
    ensures t in ExtractTerms(text) <==> FoundIn(text, t)
  {
    hide IsTokenByte, IsJoiner, Lower, Tokens, PushAll, Trim, FoundAt, LowerAll, RunOf;
    var n := LowerAll(text);
    assert n[0..] == n && n[0..0] == [];
    PushedAll([], Tokens(n, []), t);
    forall w ensures w in Tokens(n, []) <==> IsRun(n, 0, w) { TokensAreRuns(n, 0, 0, w); }
    if |t| >= 3 {
      if w :| w in Tokens(n, []) && t == Trim(w) {
        var i: nat, j: nat :| RunOf(n, i, j, w);
        var a, b := RunGivesTerm(text, i, j, w, t);
      }
      if i: nat, a: nat, b: nat, j: nat :| FoundAt(text, i, a, b, j, t) {
        TermGivesRun(text, i, a, b, j, t);
        assert IsRun(n, 0, n[i..j]);
      }
    }
  }

  lemma RunGivesTerm(text: Bytes, i: nat, j: nat, w: Bytes, t: Bytes) returns (a: nat, b: nat)
    requires RunOf(LowerAll(text), i, j, w) && t == Trim(w) && t != []
    ensures FoundAt(text, i, a, b, j, t)
  {
    hide IsTokenByte, IsJoiner, Lower, Trim, LowerAll;
    a, b := TrimIsCut(LowerAll(text), i, j);
    LowerKeepsRun(text, i, j);
    LowerKeepsCut(text, i, a, b, j);
    LowerSlice(text, a, b);
  }

  lemma TermGivesRun(text: Bytes, i: nat, a: nat, b: nat, j: nat, t: Bytes)
    requires FoundAt(text, i, a, b, j, t)
    ensures i < j <= |text| && RunOf(LowerAll(text), i, j, LowerAll(text)[i..j]) && Trim(LowerAll(text)[i..j]) == t
  {
    hide IsTokenByte, IsJoiner, Lower, Trim, LowerAll;
    LowerKeepsRun(text, i, j);
    LowerKeepsCut(text, i, a, b, j);
    LowerSlice(text, a, b);
    CutIsTrim(LowerAll(text), i, a, b, j);
  }

  lemma LowerSlice(text: Bytes, a: nat, b: nat)
    requires a <= b <= |text|
    ensures LowerAll(text)[a..b] == LowerAll(text[a..b])
  {
  }

  /** Normalisation keeps exactly the terms found in some value. */
  lemma NormalizedExactly(values: seq<Bytes>, t: Bytes)
    ensures t in Normalize(values) <==> exists v :: v in values && FoundIn(v, t)
  {
    hide FoundIn;
    SortElements(FlatTerms(values), Lex);
    DedupElements(SortBy(FlatTerms(values), Lex));
    FlatExactly(values, t);
  }

  lemma {:induction false} FlatExactly(values: seq<Bytes>, t: Bytes)
    ensures t in FlatTerms(values) <==> exists v :: v in values && FoundIn(v, t)
  {
    hide FoundIn, ExtractTerms;
    if values != [] {
      FlatExactly(values[1..], t);
      ExtractedExactly(values[0], t);
      assert forall v :: v in values <==> v == values[0] || v in values[1..];
    }
  }

  lemma SameFirst(a: Bytes, b: Bytes, k: nat)
    requires 0 < k <= |a| && k <= |b| && a[..k] == b[..k]
    ensures a[0] == b[0]
  {
    assert a[0] == a[..k][0] && b[0] == b[..k][0];
  }

  /** The order of terms: a prefix first, otherwise by the first byte that differs. */
  lemma {:induction false} LexMeans(a: Bytes, b: Bytes)
    ensures Lex(a, b) <==> a <= b || exists k: nat :: k < |a| && k < |b| && a[..k] == b[..k] && a[k] < b[k]
  {
    if a != [] && b != [] && a[0] == b[0] {
      LexMeans(a[1..], b[1..]);
      if a[1..] <= b[1..] { assert a == [a[0]] + a[1..] && b == [b[0]] + b[1..]; }
      if k: nat :| k < |a| - 1 && k < |b| - 1 && a[1..][..k] == b[1..][..k] && a[1..][k] < b[1..][k] {
        assert a[..k + 1] == [a[0]] + a[1..][..k] && b[..k + 1] == [b[0]] + b[1..][..k] && a[k + 1] < b[k + 1];
      }
      if k: nat :| k < |a| && k < |b| && a[..k] == b[..k] && a[k] < b[k] {
        assert k > 0;
        assert a[1..][..k - 1] == a[..k][1..] && b[1..][..k - 1] == b[..k][1..] && a[1..][k - 1] < b[1..][k - 1];
      }
    } else if a != [] && b != [] {
      if a[0] < b[0] { assert a[..0] == b[..0]; }
      if k: nat :| k < |a| && k < |b| && a[..k] == b[..k] && a[k] < b[k] {
        if k > 0 { SameFirst(a, b, k); }
      }
    }
  }
}
