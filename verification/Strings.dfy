/**
 join and split of include/base/string.h, and the laws that connect them with
 putting tokens together with single separators.
 */
module Strings {
  import opened Wrappers

  /** std::string::find: the first sep at or after pos; None is npos. */
  function Find(s: string, sep: char, pos: nat): (r: Option<nat>)
    requires pos <= |s|
    ensures r.None? ==> forall i | pos <= i < |s| :: s[i] != sep
    ensures r.Some? ==> pos <= r.value < |s| && s[r.value] == sep
    ensures r.Some? ==> forall i | pos <= i < r.value :: s[i] != sep
    decreases |s| - pos
  {
    if pos == |s| then None else if s[pos] == sep then Some(pos) else Find(s, sep, pos + 1)
  }

  function Piece(t: string): seq<string> {
    if t != "" then [t] else []
  }

  /** The tokens of s: what precedes the first separator, unless it is empty, and then the
      tokens of what follows it. The last token is kept even when it is empty. */
  function Tokens(s: string, sep: char): seq<string> {
    match Find(s, sep, 0)
    case None => [s]
    case Some(k) => Piece(s[..k]) + Tokens(s[k + 1..], sep)
  }

  lemma {:induction false} FirstOccurrence(s: string, sep: char, pos: nat, k: nat)
    requires pos <= k < |s| && s[k] == sep && forall i | pos <= i < k :: s[i] != sep
    ensures Find(s, sep, pos) == Some(k)
    decreases k - pos
  {
    if pos < k {
      FirstOccurrence(s, sep, pos + 1, k);
    }
  }

  lemma {:induction false} FindInRest(s: string, sep: char, pos: nat, j: nat)
    requires pos + j <= |s|
    ensures Find(s[pos..], sep, j)
            == match Find(s, sep, pos + j) case None => None case Some(k) => Some(k - pos)
    decreases |s| - pos - j
  {
    if pos + j < |s| && s[pos + j] != sep {
      FindInRest(s, sep, pos, j + 1);
    }
  }

  lemma SliceOfRest(s: string, pos: nat, k: nat)
    requires pos <= k < |s|
    ensures s[pos..][..k - pos] == s[pos..k] && s[pos..][k - pos + 1..] == s[k + 1..]
  {
  }

  lemma TokensUnfold(t: string, sep: char)
    ensures Find(t, sep, 0).None? ==> Tokens(t, sep) == [t]
    ensures Find(t, sep, 0).Some? ==>
              var k := Find(t, sep, 0).value;
              Tokens(t, sep) == Piece(t[..k]) + Tokens(t[k + 1..], sep)
  {
  }

  lemma TokensFrom(s: string, sep: char, pos: nat)
    requires pos <= |s|
    ensures Find(s, sep, pos).None? ==> Tokens(s[pos..], sep) == [s[pos..]]
    ensures Find(s, sep, pos).Some? ==>
              var k := Find(s, sep, pos).value;
              Tokens(s[pos..], sep) == Piece(s[pos..k]) + Tokens(s[k + 1..], sep)
  {
    hide Tokens, Find;
    FindInRest(s, sep, pos, 0);
    TokensUnfold(s[pos..], sep);
    var k := Find(s, sep, pos);
    if k.Some? {
      SliceOfRest(s, pos, k.value);
    }
  }

  method Split(str: string, sep: char) returns (result: seq<string>)
    ensures result == Tokens(str, sep)
  {
    hide Tokens;
    result := [];
    var pos := 0;
    var stop := Find(str, sep, pos);
    assert str[0..] == str;
    while stop != None
      invariant pos <= |str| && stop == Find(str, sep, pos)
      invariant Tokens(str, sep) == result + Tokens(str[pos..], sep)
      decreases |str| - pos
    {
      TokensFrom(str, sep, pos);
      ghost var rest := Tokens(str[stop.value + 1..], sep);
      assert result + (Piece(str[pos..stop.value]) + rest) == result + Piece(str[pos..stop.value]) + rest;
      if stop.value != pos {
        result := result + [str[pos..stop.value]];
      }
      pos := stop.value + 1;
      stop := Find(str, sep, pos);
    }
    TokensFrom(str, sep, pos);
    if stop != Some(pos) {
      result := result + [str[pos..]];
    }
  }

  function Concat(v: seq<string>): string {
    if v == [] then "" else v[0] + Concat(v[1..])
  }

  lemma {:induction false} ConcatSnoc(v: seq<string>, t: string)
    ensures Concat(v + [t]) == Concat(v) + t
  {
    if v == [] {
      assert v + [t] == [t];
      assert Concat([t]) == t + Concat([]);
    } else {
      ConcatSnoc(v[1..], t);
      assert (v + [t])[1..] == v[1..] + [t];
    }
  }

  /** join as coded: one separator, after the last token, and none between tokens. */
  method Join(v: seq<string>, sep: char) returns (r: string)
    ensures r == Concat(v) + if v == [] then "" else [sep]
  {
    r := "";
    for i := 0 to |v|
      invariant r == Concat(v[..i]) + if i == |v| && i > 0 then [sep] else ""
    {
      ConcatSnoc(v[..i], v[i]);
      assert v[..i + 1] == v[..i] + [v[i]];
      r := r + v[i];
      if i == |v| - 1 {
        r := r + [sep];
      }
    }
    assert v[..|v|] == v;
  }

  // ---------- Split against intercalation ----------

  /** The tokens with one separator between any two. */
  function Intercalate(v: seq<string>, sep: char): string {
    if v == [] then "" else if |v| == 1 then v[0] else v[0] + [sep] + Intercalate(v[1..], sep)
  }

  /** At least one token, none with a separator inside, and only the last may be empty. */
  predicate Canonical(v: seq<string>, sep: char) {
    && v != []
    && (forall i | 0 <= i < |v| :: sep !in v[i])
    && (forall i | 0 <= i < |v| - 1 :: v[i] != "")
  }

  /** Every result of split has that form. */
  lemma {:induction false} TokensAreCanonical(s: string, sep: char)
    ensures Canonical(Tokens(s, sep), sep)
    decreases |s|
  {
    match Find(s, sep, 0)
    case None =>
    case Some(k) => TokensAreCanonical(s[k + 1..], sep);
  }

  lemma {:induction false} TokensOfIntercalated(v: seq<string>, sep: char)
    requires Canonical(v, sep)
    ensures Tokens(Intercalate(v, sep), sep) == v
  {
    var s := Intercalate(v, sep);
    if |v| == 1 {
      assert s[0..] == s;
    } else {
      var k := |v[0]|;
      assert s[..k] == v[0] && forall i | 0 <= i < k :: s[i] == v[0][i];
      FirstOccurrence(s, sep, 0, k);
      assert s[k + 1..] == Intercalate(v[1..], sep);
      TokensOfIntercalated(v[1..], sep);
    }
  }

  /** split is a left inverse of intercalation on exactly the canonical token lists. */
  lemma SplitInvertsIntercalate(v: seq<string>, sep: char)
    ensures Tokens(Intercalate(v, sep), sep) == v <==> Canonical(v, sep)
  {
    TokensAreCanonical(Intercalate(v, sep), sep);
    if Canonical(v, sep) {
      TokensOfIntercalated(v, sep);
    }
  }

  /** Splitting, intercalating and splitting again changes nothing more. */
  lemma SplitIsIdempotent(s: string, sep: char)
    ensures Tokens(Intercalate(Tokens(s, sep), sep), sep) == Tokens(s, sep)
  {
    TokensAreCanonical(s, sep);
    SplitInvertsIntercalate(Tokens(s, sep), sep);
  }

  /** No separator in front and no two in a row. */
  predicate Tidy(s: string, sep: char) {
    (s != "" ==> s[0] != sep) && forall i | 0 < i < |s| :: s[i - 1] != sep || s[i] != sep
  }

  lemma {:induction false} IntercalateNeverLonger(s: string, sep: char)
    ensures |Intercalate(Tokens(s, sep), sep)| <= |s|
    decreases |s|
  {
    match Find(s, sep, 0)
    case None =>
    case Some(k) =>
      TokensAreCanonical(s[k + 1..], sep);
      IntercalateNeverLonger(s[k + 1..], sep);
      if k != 0 {
        assert Tokens(s, sep)[1..] == Tokens(s[k + 1..], sep);
      } else {
        assert Tokens(s, sep) == Tokens(s[k + 1..], sep);
      }
  }

  /** Intercalation restores exactly the strings in which split skipped no empty token. */
  lemma {:induction false} IntercalateRestoresTidy(s: string, sep: char)
    ensures Intercalate(Tokens(s, sep), sep) == s <==> Tidy(s, sep)
    decreases |s|
  {
    match Find(s, sep, 0)
    case None =>
    case Some(k) =>
      var rest := s[k + 1..];
      TokensAreCanonical(rest, sep);
      IntercalateNeverLonger(rest, sep);
      if k == 0 {
        assert Tokens(s, sep) == Tokens(rest, sep);
      } else {
        assert Tokens(s, sep)[1..] == Tokens(rest, sep);
        assert s == s[..k] + [sep] + rest;
        IntercalateRestoresTidy(rest, sep);
        TidyRest(s, sep, k);
        if Intercalate(Tokens(s, sep), sep) == s {
          assert s[k + 1..] == Intercalate(Tokens(rest, sep), sep);
        }
      }
  }

  lemma TidyRest(s: string, sep: char, k: nat)
    requires 0 < k < |s| && s[k] == sep && forall i | 0 <= i < k :: s[i] != sep
    ensures Tidy(s, sep) <==> Tidy(s[k + 1..], sep)
  {
    var rest := s[k + 1..];
    assert forall i | k < i < |s| :: s[i] == rest[i - k - 1];
    if Tidy(s, sep) {
      assert forall i | 0 <= i < |rest| :: rest[i] == s[i + k + 1];
    }
  }

  /** s without the separators that stand in front or right after another one. */
  function Tidied(s: string, sep: char, afterSeparator: bool): string {
    if s == "" then ""
    else (if s[0] == sep && afterSeparator then "" else [s[0]]) + Tidied(s[1..], sep, s[0] == sep)
  }

  lemma {:induction false} TidiedToken(t: string, rest: string, sep: char)
    requires sep !in t
    ensures forall after :: t != "" ==> Tidied(t + rest, sep, after) == t + Tidied(rest, sep, false)
  {
    if t != "" {
      TidiedToken(t[1..], rest, sep);
      assert (t + rest)[0] == t[0] && (t + rest)[1..] == t[1..] + rest;
      if |t| == 1 {
        assert t[1..] + rest == rest;
      }
    }
  }

  lemma TidiedAtSeparator(s: string, sep: char, k: nat)
    requires k < |s| && s[k] == sep && forall i | 0 <= i < k :: s[i] != sep
    ensures Tidied(s, sep, true) == (if k > 0 then s[..k] + [sep] else "") + Tidied(s[k + 1..], sep, true)
  {
    var back := s[k..];
    assert s == s[..k] + back && back[0] == sep && back[1..] == s[k + 1..];
    if k > 0 {
      TidiedToken(s[..k], back, sep);
    }
  }

  /** For every string: the tokens are those of the tidied string, where they stand between single
      separators. */
  lemma {:induction false} IntercalateTidies(s: string, sep: char)
    ensures Intercalate(Tokens(s, sep), sep) == Tidied(s, sep, true)
    decreases |s|
  {
    TokensUnfold(s, sep);
    match Find(s, sep, 0)
    case None =>
      TidiedToken(s, "", sep);
      assert s + "" == s;
    case Some(k) =>
      var rest := Tokens(s[k + 1..], sep);
      IntercalateTidies(s[k + 1..], sep);
      TokensAreCanonical(s[k + 1..], sep);
      TidiedAtSeparator(s, sep, k);
      hide Tidied, Tokens;
      if k > 0 {
        assert ([s[..k]] + rest)[1..] == rest;
      } else {
        assert Piece(s[..k]) + rest == rest;
      }
  }

  // ---------- What is lost ----------

  function Without(s: string, sep: char): string {
    if s == "" then "" else (if s[0] == sep then "" else [s[0]]) + Without(s[1..], sep)
  }

  lemma WithoutFirst(s: string, sep: char)
    requires s != ""
    ensures Without(s, sep) == (if s[0] == sep then "" else [s[0]]) + Without(s[1..], sep)
  {
  }

  lemma {:induction false} WithoutAppend(s: string, t: string, sep: char)
    ensures Without(s + t, sep) == Without(s, sep) + Without(t, sep)
  {
    if s == "" {
      assert s + t == t && Without(s, sep) == "";
    } else {
      WithoutAppend(s[1..], t, sep);
      assert (s + t)[0] == s[0] && (s + t)[1..] == s[1..] + t;
      hide Without;
      WithoutFirst(s, sep);
      WithoutFirst(s + t, sep);
    }
  }

  lemma {:induction false} WithoutNothing(s: string, sep: char)
    requires sep !in s
    ensures Without(s, sep) == s
  {
    if s != "" {
      WithoutNothing(s[1..], sep);
    }
  }

  lemma ConcatPiece(t: string, v: seq<string>)
    ensures Concat(Piece(t) + v) == t + Concat(v)
  {
    if t != "" {
      assert (Piece(t) + v)[1..] == v;
    } else {
      assert Piece(t) + v == v;
    }
  }

  lemma WithoutAtSeparator(s: string, sep: char, k: nat)
    requires k < |s| && s[k] == sep && forall i | 0 <= i < k :: s[i] != sep
    ensures Without(s, sep) == s[..k] + Without(s[k + 1..], sep)
  {
    var back := s[k..];
    assert s == s[..k] + back && back[1..] == s[k + 1..];
    WithoutNothing(s[..k], sep);
    WithoutAppend(s[..k], back, sep);
  }

  /** Concatenated, the tokens are the string without its separators. */
  lemma {:induction false} TokensLoseOnlySeparators(s: string, sep: char)
    ensures Concat(Tokens(s, sep)) == Without(s, sep)
    decreases |s|
  {
    match Find(s, sep, 0)
    case None =>
      WithoutNothing(s, sep);
      assert Concat([s]) == s + Concat([]);
    case Some(k) =>
      TokensLoseOnlySeparators(s[k + 1..], sep);
      ConcatPiece(s[..k], Tokens(s[k + 1..], sep));
      WithoutAtSeparator(s, sep, k);
  }

  /** join after split: all separators gone but one at the end. That is the original string
      only if it had one separator, at its end. */
  method JoinSplit(s: string, sep: char) returns (r: string)
    ensures r == Without(s, sep) + [sep]
    ensures r == s <==> s != "" && s[|s| - 1] == sep && sep !in s[..|s| - 1]
  {
    var tokens := Split(s, sep);
    r := Join(tokens, sep);
    TokensLoseOnlySeparators(s, sep);
    TokensAreCanonical(s, sep);
    WithoutHasNone(s, sep);
    if s != "" && s[|s| - 1] == sep {
      assert s == s[..|s| - 1] + [sep];
      WithoutAppend(s[..|s| - 1], [sep], sep);
      assert Without([sep], sep) == Without([sep][1..], sep) == "";
      if sep !in s[..|s| - 1] {
        WithoutNothing(s[..|s| - 1], sep);
      }
    }
  }

  lemma {:induction false} WithoutHasNone(s: string, sep: char)
    ensures sep !in Without(s, sep)
  {
    if s != "" {
      WithoutHasNone(s[1..], sep);
    }
  }
}
