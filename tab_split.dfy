/**
 * Splitting one line of the catalog into its tab-separated fields, as
 * `getTokens` does with repeated `std::getline(iss, token, '\t')`: every tab
 * ends a field, and the text after the last tab is a field only when it is
 * not empty (getline fails when it extracts nothing at end of input).
 */
module TabSplit {

  const TAB: char := '\t'

  /** The position of the first tab in `s` at or after `k`, or `|s|` when there is none. */
  function FirstTabFrom(s: string, k: nat): (i: nat)
    requires k <= |s|
    ensures k <= i <= |s|
    ensures i < |s| ==> s[i] == TAB
    decreases |s| - k
  {
    if k == |s| then k
    else if s[k] == TAB then k
    else FirstTabFrom(s, k + 1)
  }

  /** The position of the first tab in `s`, or `|s|` when there is none. */
  function FirstTab(s: string): (i: nat)
    ensures i <= |s|
    ensures i < |s| ==> s[i] == TAB
  {
    FirstTabFrom(s, 0)
  }

  /** No tab comes before the first one. */
  lemma BeforeFirstTab(s: string)
    ensures forall j :: 0 <= j < FirstTab(s) ==> s[j] != TAB
  {
    BeforeFirstTabFrom(s, 0);
  }

  lemma {:induction false} BeforeFirstTabFrom(s: string, k: nat)
    requires k <= |s|
    ensures forall j :: k <= j < FirstTabFrom(s, k) ==> s[j] != TAB
    decreases |s| - k
  {
    if k < |s| && s[k] != TAB {
      BeforeFirstTabFrom(s, k + 1);
    }
  }

  /** The tokens `getTokens` yields for `line`. */
  function Tokens(line: string): seq<string>
    decreases |line|
  {
    if line == [] then []
    else
      var i := FirstTab(line);
      if i == |line| then [line] else [line[..i]] + Tokens(line[i + 1..])
  }

  /** The tokens written back with a tab between each two of them. */
  function Join(tokens: seq<string>): string
  {
    if tokens == [] then []
    else if |tokens| == 1 then tokens[0]
    else tokens[0] + [TAB] + Join(tokens[1..])
  }

  predicate EndsInTab(s: string)
  {
    s != [] && s[|s| - 1] == TAB
  }

  /** Splitting a tab-free prefix followed by a tab peels off that prefix. */
  lemma {:induction false} TokensOfField(field: string, rest: string)
    requires TAB !in field
    ensures Tokens(field + [TAB] + rest) == [field] + Tokens(rest)
  {
    var s := field + [TAB] + rest;
    var i := FirstTab(s);
    BeforeFirstTab(s);
    assert s[|field|] == TAB;
    assert s[..i] == field;
    assert s[i + 1..] == rest;
  }

  /** A non-empty tab-free remainder is one last token. */
  lemma TokensOfLastField(field: string)
    requires TAB !in field && field != []
    ensures Tokens(field) == [field]
  {
  }

  /** No token contains a tab. */
  lemma {:induction false} TokensHaveNoTab(line: string)
    ensures forall k :: 0 <= k < |Tokens(line)| ==> TAB !in Tokens(line)[k]
    decreases |line|
  {
    if line != [] {
      var i := FirstTab(line);
      BeforeFirstTab(line);
      if i < |line| {
        TokensHaveNoTab(line[i + 1..]);
        assert TAB !in line[..i] by {
          forall j | 0 <= j < i ensures line[..i][j] != TAB { }
        }
      } else {
        forall j | 0 <= j < |line| ensures line[j] != TAB { }
      }
    }
  }

  /**
   * Joining the tokens with tabs gives the line back, up to the one trailing
   * tab that `getTokens` drops.
   */
  lemma {:induction false} JoinTokens(line: string)
    ensures Join(Tokens(line)) + (if EndsInTab(line) then [TAB] else []) == line
    decreases |line|
  {
    if line != [] {
      var i := FirstTab(line);
      if i < |line| {
        TokensAtTab(line, i);
        SplitAt(line, i);
        if line[i + 1..] != [] {
          JoinTokens(line[i + 1..]);
        }
        JoinAtTab(line[..i], line[i + 1..], Tokens(line[i + 1..]));
      } else {
        JoinNoTab(line);
      }
    }
  }

  /** A non-empty line without a tab is its own single token. */
  lemma JoinNoTab(line: string)
    requires line != [] && FirstTab(line) == |line|
    ensures Join(Tokens(line)) + (if EndsInTab(line) then [TAB] else []) == line
  {
    assert Tokens(line) == [line];
    BeforeFirstTab(line);
    assert line[|line| - 1] != TAB;
  }

  /** The step of `JoinTokens` for a field, a tab and the tokens `ts` of the rest of the line. */
  lemma JoinAtTab(field: string, rest: string, ts: seq<string>)
    requires rest == [] ==> ts == []
    requires rest != [] ==> ts != [] && Join(ts) + (if EndsInTab(rest) then [TAB] else []) == rest
    ensures Join([field] + ts) + (if EndsInTab(field + [TAB] + rest) then [TAB] else []) == field + [TAB] + rest
  {
    var line := field + [TAB] + rest;
    if rest == [] {
      assert [field] + ts == [field];
      assert line[|line| - 1] == TAB;
    } else {
      var tail: string := if EndsInTab(rest) then [TAB] else [];
      assert line[|line| - 1] == rest[|rest| - 1];
      JoinCons(field, ts);
      assert Join([field] + ts) + tail == field + [TAB] + (Join(ts) + tail);
    }
  }

  /** One step of `Tokens` on a line that holds a tab. */
  lemma TokensAtTab(line: string, i: nat)
    requires i == FirstTab(line) && i < |line|
    ensures Tokens(line) == [line[..i]] + Tokens(line[i + 1..])
  {
  }

  /** A line is the text before position `i`, its tab, and the text after it. */
  lemma SplitAt(line: string, i: nat)
    requires i < |line| && line[i] == TAB
    ensures line == line[..i] + [TAB] + line[i + 1..]
  {
  }

  lemma JoinCons(field: string, fields: seq<string>)
    requires fields != []
    ensures Join([field] + fields) == field + [TAB] + Join(fields)
  {
    assert ([field] + fields)[1..] == fields;
  }

  /** A line that does not end in a tab is exactly its tokens joined by tabs. */
  lemma JoinTokensNoTrailingTab(line: string)
    requires !EndsInTab(line)
    ensures Join(Tokens(line)) == line
  {
    JoinTokens(line);
    assert Join(Tokens(line)) + [] == Join(Tokens(line));
  }

  /**
   * Tab-free fields whose last one is not empty are split back into exactly
   * those fields: `Tokens` inverts `Join`.
   */
  lemma {:induction false} TokensJoin(fields: seq<string>)
    requires forall k :: 0 <= k < |fields| ==> TAB !in fields[k]
    requires fields == [] || fields[|fields| - 1] != []
    ensures Tokens(Join(fields)) == fields
  {
    if |fields| == 1 {
      TokensOfLastField(fields[0]);
    } else if |fields| > 1 {
      TokensJoin(fields[1..]);
      TokensOfField(fields[0], Join(fields[1..]));
    }
  }

  /** The empty line has no tokens. */
  lemma EmptyLineHasNoTokens()
    ensures Tokens([]) == []
  {
  }

  /** A tab appended to a line that ends in a non-tab adds no empty token. */
  lemma {:induction false} TrailingTabAddsNoToken(line: string)
    requires line != [] && !EndsInTab(line)
    ensures Tokens(line + [TAB]) == Tokens(line)
    decreases |line|
  {
    var i := FirstTab(line);
    if i < |line| {
      TrailingTabFirstTab(line);
      TrailingTabSplit(line, i);
      TokensAtTab(line, i);
      TokensAtTab(line + [TAB], i);
      TrailingTabAddsNoToken(line[i + 1..]);
    } else {
      TrailingTabNoTab(line);
    }
  }

  /** Splitting `line + [TAB]` at a tab inside `line`: the same field, and the rest with the tab appended. */
  lemma TrailingTabSplit(line: string, i: nat)
    requires i < |line| && line[i] == TAB && !EndsInTab(line)
    ensures (line + [TAB])[..i] == line[..i]
    ensures (line + [TAB])[i + 1..] == line[i + 1..] + [TAB]
    ensures line[i + 1..] != [] && !EndsInTab(line[i + 1..])
  {
  }

  /** A tab-free line followed by a tab is one token. */
  lemma TrailingTabNoTab(line: string)
    requires line != [] && FirstTab(line) == |line|
    ensures Tokens(line + [TAB]) == Tokens(line)
  {
    var s := line + [TAB];
    TrailingTabFirstTab(line);
    assert s[..|line|] == line;
    assert s[|line| + 1..] == [];
    TokensAtTab(s, |line|);
  }

  /** Appending a tab does not move the first tab; without one, the appended tab is the first. */
  lemma TrailingTabFirstTab(line: string)
    ensures FirstTab(line + [TAB]) == FirstTab(line)
  {
    var s := line + [TAB];
    var i := FirstTab(line);
    var k := FirstTab(s);
    BeforeFirstTab(line);
    BeforeFirstTab(s);
    assert forall j :: 0 <= j < |line| ==> s[j] == line[j];
    if i < |line| {
      assert s[i] == TAB;
    } else {
      assert s[|line|] == TAB;
    }
  }

  /** How the unsplit text `token + line[i..]` changes when `line[i]` is consumed. */
  lemma PendingStep(token: string, line: string, i: nat)
    requires i < |line| && TAB !in token
    ensures line[i] == TAB ==> Tokens(token + line[i..]) == [token] + Tokens(line[i + 1..])
    ensures line[i] != TAB ==> token + line[i..] == (token + [line[i]]) + line[i + 1..]
  {
    assert line[i..] == [line[i]] + line[i + 1..];
    if line[i] == TAB {
      TokensOfField(token, line[i + 1..]);
      assert token + line[i..] == token + [TAB] + line[i + 1..];
    }
  }

  /** `getTokens`: one pass over the line, a token ends at each tab. */
  method GetTokens(line: string) returns (tokens: seq<string>)
    ensures tokens == Tokens(line)
  {
    tokens := [];
    var token: string := [];
    var i := 0;
    assert token + line[i..] == line;
    while i < |line|
      invariant 0 <= i <= |line|
      invariant TAB !in token
      invariant tokens + Tokens(token + line[i..]) == Tokens(line)
    {
      PendingStep(token, line, i);
      if line[i] == TAB {
        assert (tokens + [token]) + Tokens(line[i + 1..]) == tokens + ([token] + Tokens(line[i + 1..]));
        tokens := tokens + [token];
        token := [];
        assert token + line[i + 1..] == line[i + 1..];
      } else {
        token := token + [line[i]];
      }
      i := i + 1;
    }
    assert token + line[i..] == token;
    if token != [] {
      TokensOfLastField(token);
      tokens := tokens + [token];
    }
  }
}
