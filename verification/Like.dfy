/** SQL LIKE with the escape character '\', and the escaping that makes a search
    text literal under it. */
module Like {

  /** Whether the text matches the pattern; `fold` is the identity for LIKE and a case fold for ILIKE. */
  predicate Matches(pattern: string, text: string, fold: char -> char)
    decreases |pattern| + |text|
  {
    if pattern == "" then text == ""
    else if pattern[0] == '%' then
      Matches(pattern[1..], text, fold) || (text != "" && Matches(pattern, text[1..], fold))
    else if pattern[0] == '_' then text != "" && Matches(pattern[1..], text[1..], fold)
    else if pattern[0] == '\\' then
      |pattern| > 1 && text != "" && fold(pattern[1]) == fold(text[0]) && Matches(pattern[2..], text[1..], fold)
    else text != "" && fold(pattern[0]) == fold(text[0]) && Matches(pattern[1..], text[1..], fold)
  }

  /** The pattern ends inside an escape, which the database reports as an error. */
  predicate DanglingEscape(pattern: string) {
    if pattern == "" then false
    else if pattern[0] == '\\' then |pattern| == 1 || DanglingEscape(pattern[2..])
    else DanglingEscape(pattern[1..])
  }

  /** strings.ReplaceAll for a one-character target. */
  function ReplaceAll(value: string, target: char, replacement: string): string {
    if value == "" then ""
    else (if value[0] == target then replacement else [value[0]]) + ReplaceAll(value[1..], target, replacement)
  }

  function EscapeLike(value: string): string {
    ReplaceAll(ReplaceAll(ReplaceAll(value, '\\', "\\\\"), '%', "\\%"), '_', "\\_")
  }

  predicate Special(c: char) {
    c == '\\' || c == '%' || c == '_'
  }

  /** The independent reference: each special character is preceded by one escape. */
  function EscapeEach(value: string): string {
    if value == "" then ""
    else (if Special(value[0]) then ['\\', value[0]] else [value[0]]) + EscapeEach(value[1..])
  }

  lemma Associates(a: string, b: string, c: string)
    ensures (a + b) + c == a + (b + c)
  {
  }

  lemma ReplaceFirst(value: string, target: char, replacement: string)
    requires value != ""
    ensures ReplaceAll(value, target, replacement)
         == (if value[0] == target then replacement else [value[0]]) + ReplaceAll(value[1..], target, replacement)
  {
  }

  lemma {:induction false} ReplaceConcat(a: string, b: string, target: char, replacement: string)
    ensures ReplaceAll(a + b, target, replacement)
        == ReplaceAll(a, target, replacement) + ReplaceAll(b, target, replacement)
  {
    if a == "" {
      assert a + b == b;
    } else {
      ReplaceConcat(a[1..], b, target, replacement);
      ReplaceFirst(a, target, replacement);
      ReplaceFirst(a + b, target, replacement);
      hide ReplaceAll;
      assert (a + b)[1..] == a[1..] + b && (a + b)[0] == a[0];
      var first := if a[0] == target then replacement else [a[0]];
      Associates(first, ReplaceAll(a[1..], target, replacement), ReplaceAll(b, target, replacement));
    }
  }

  lemma ReplaceShort(c: char, d: char, target: char, replacement: string)
    ensures ReplaceAll([c], target, replacement) == if c == target then replacement else [c]
    ensures ReplaceAll([c, d], target, replacement) ==
            (if c == target then replacement else [c]) + (if d == target then replacement else [d])
  {
    assert [c][1..] == "" && [c, d][1..] == [d];
    assert ReplaceAll([d], target, replacement) == if d == target then replacement else [d];
  }

  /** The three replacements, in that order, escape each special character exactly once. */
  lemma {:induction false} EscapeIsPerCharacter(value: string)
    ensures EscapeLike(value) == EscapeEach(value)
  {
    if value != "" {
      var c, rest := value[0], value[1..];
      EscapeIsPerCharacter(rest);
      var c1 := if c == '\\' then "\\\\" else [c];
      var c2 := ReplaceAll(c1, '%', "\\%");
      ReplaceConcat(c1, ReplaceAll(rest, '\\', "\\\\"), '%', "\\%");
      ReplaceConcat(c2, ReplaceAll(ReplaceAll(rest, '\\', "\\\\"), '%', "\\%"), '_', "\\_");
      ReplaceShort(c, '\\', '%', "\\%");
      ReplaceShort('\\', '\\', '%', "\\%");
      ReplaceShort(c, '\\', '_', "\\_");
      ReplaceShort('\\', '\\', '_', "\\_");
      ReplaceShort('\\', '%', '_', "\\_");
      assert ReplaceAll(c2, '_', "\\_") == if Special(c) then ['\\', c] else [c];
    }
  }

  /** The text occurs at position i, up to the fold. */
  predicate OccursAt(query: string, text: string, i: int, fold: char -> char) {
    0 <= i <= |text| - |query| && forall k | 0 <= k < |query| :: fold(query[k]) == fold(text[i + k])
  }

  lemma {:induction false} EscapedPrefix(query: string, text: string, fold: char -> char)
    ensures Matches(EscapeEach(query) + "%", text, fold) <==> OccursAt(query, text, 0, fold)
  {
    var pattern := EscapeEach(query) + "%";
    if query == "" {
      assert pattern == "%";
      PercentMatchesAll(text, fold);
    } else {
      var rest := EscapeEach(query[1..]) + "%";
      assert if Special(query[0]) then pattern[2..] == rest else pattern[1..] == rest;
      if text != "" {
        EscapedPrefix(query[1..], text[1..], fold);
        assert Matches(pattern, text, fold) <==> fold(query[0]) == fold(text[0]) && Matches(rest, text[1..], fold);
        OccursShift(query, text, fold);
      }
    }
  }

  lemma OccursShift(query: string, text: string, fold: char -> char)
    requires query != "" && text != ""
    ensures OccursAt(query, text, 0, fold)
        <==> fold(query[0]) == fold(text[0]) && OccursAt(query[1..], text[1..], 0, fold)
  {
    if fold(query[0]) == fold(text[0]) && OccursAt(query[1..], text[1..], 0, fold) {
      forall k | 0 <= k < |query| ensures fold(query[k]) == fold(text[k]) {
        if k > 0 { assert fold(query[1..][k - 1]) == fold(text[1..][0 + (k - 1)]); }
      }
    }
    if OccursAt(query, text, 0, fold) {
      forall k | 0 <= k < |query[1..]| ensures fold(query[1..][k]) == fold(text[1..][0 + k]) {
        assert fold(query[k + 1]) == fold(text[0 + (k + 1)]);
      }
      assert fold(query[0]) == fold(text[0 + 0]);
    }
  }

  lemma {:induction false} PercentMatchesAll(text: string, fold: char -> char)
    ensures Matches("%", text, fold)
  {
    if text != "" { PercentMatchesAll(text[1..], fold); }
  }

  lemma {:induction false} LeadingPercent(pattern: string, text: string, fold: char -> char)
    ensures Matches("%" + pattern, text, fold) <==> exists i :: 0 <= i <= |text| && Matches(pattern, text[i..], fold)
  {
    assert ("%" + pattern)[1..] == pattern;
    assert text[0..] == text;
    if text != "" {
      LeadingPercent(pattern, text[1..], fold);
      forall i | 0 <= i <= |text[1..]| ensures text[1..][i..] == text[i + 1..] { }
      forall i | 0 < i <= |text| ensures text[i..] == text[1..][i - 1..] { }
    }
  }

  /** A search for any query, with all its special characters, is a literal substring search. */
  lemma EscapedSearchIsLiteral(query: string, text: string, fold: char -> char)
    ensures Matches("%" + EscapeLike(query) + "%", text, fold) <==> exists i :: OccursAt(query, text, i, fold)
  {
    EscapeIsPerCharacter(query);
    var pattern := EscapeEach(query) + "%";
    assert "%" + EscapeLike(query) + "%" == "%" + pattern;
    LeadingPercent(pattern, text, fold);
    forall i | 0 <= i <= |text|
      ensures Matches(pattern, text[i..], fold) <==> OccursAt(query, text, i, fold)
    {
      EscapedPrefix(query, text[i..], fold);
      OccursInSuffix(query, text, i, fold);
    }
  }

  /** The WHERE clause of the artifact search, given the escaped query. */
  predicate SearchClause(escaped: string, path: string, name: string, displayName: string, fold: char -> char) {
    || escaped == ""
    || Matches("%" + escaped + "%", path, fold)
    || Matches("%" + escaped + "%", name, fold)
    || Matches("%" + escaped + "%", displayName, fold)
  }

  ghost predicate Occurs(query: string, text: string, fold: char -> char) {
    exists i :: OccursAt(query, text, i, fold)
  }

  /** The search returns exactly the artifacts whose path, name or display name contains the query. */
  lemma SearchFindsSubstrings(query: string, path: string, name: string, displayName: string, fold: char -> char)
    ensures SearchClause(EscapeLike(query), path, name, displayName, fold) <==>
            Occurs(query, path, fold) || Occurs(query, name, fold) || Occurs(query, displayName, fold)
  {
    EscapedSearchIsLiteral(query, path, fold);
    EscapedSearchIsLiteral(query, name, fold);
    EscapedSearchIsLiteral(query, displayName, fold);
    EscapeIsPerCharacter(query);
    if query == "" { assert OccursAt(query, path, 0, fold); }
  }

  lemma OccursInSuffix(query: string, text: string, i: nat, fold: char -> char)
    requires i <= |text|
    ensures OccursAt(query, text[i..], 0, fold) <==> OccursAt(query, text, i, fold)
  {
    if OccursAt(query, text[i..], 0, fold) {
      forall k | 0 <= k < |query| ensures fold(query[k]) == fold(text[i + k]) {
        assert text[i..][0 + k] == text[i + k];
      }
    }
  }

  /** The search pattern is never an error to the database. */
  lemma {:induction false} EscapedPatternIsWellFormed(query: string)
    ensures !DanglingEscape("%" + EscapeLike(query) + "%")
  {
    EscapeIsPerCharacter(query);
    EscapedEndsClean(query);
    assert ("%" + EscapeLike(query) + "%")[1..] == EscapeEach(query) + "%";
  }

  lemma {:induction false} EscapedEndsClean(query: string)
    ensures !DanglingEscape(EscapeEach(query) + "%")
  {
    var pattern := EscapeEach(query) + "%";
    if query == "" {
      assert pattern[1..] == "";
    } else {
      EscapedEndsClean(query[1..]);
      var rest := EscapeEach(query[1..]) + "%";
      assert if Special(query[0]) then pattern[2..] == rest else pattern[1..] == rest;
    }
  }

  function Same(c: char): char {
    c
  }

  /** Without special characters, "prefix/%" matches exactly what starts with "prefix/". */
  lemma {:induction false} LiteralPrefix(prefix: string, text: string)
    requires forall i | 0 <= i < |prefix| :: !Special(prefix[i])
    ensures Matches(prefix + "%", text, Same) <==> prefix <= text
  {
    if prefix == "" {
      assert prefix + "%" == "%";
      PercentMatchesAll(text, Same);
    } else {
      assert (prefix + "%")[1..] == prefix[1..] + "%";
      if text != "" {
        LiteralPrefix(prefix[1..], text[1..]);
        assert prefix <= text <==> prefix[0] == text[0] && prefix[1..] <= text[1..] by {
          assert prefix == [prefix[0]] + prefix[1..] && text == [text[0]] + text[1..];
        }
      }
    }
  }
}
