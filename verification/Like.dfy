/** The ILIKE operator, with case folding on the ASCII letters. */
module Like {

  function Fold(c: char): char
  {
    if 'A' <= c <= 'Z' then (c as int + 32) as char else c
  }

  /** `%` matches any run, `_` any one character, and a backslash makes the next character literal. */
  predicate ILike(text: string, pattern: string)
    decreases |pattern|, |text|
  {
    if pattern == "" then text == ""
    else if pattern[0] == '%' then
      ILike(text, pattern[1..]) || (text != "" && ILike(text[1..], pattern))
    else if pattern[0] == '_' then text != "" && ILike(text[1..], pattern[1..])
    else if pattern[0] == '\\' then
      |pattern| > 1 && text != "" && Fold(text[0]) == Fold(pattern[1]) && ILike(text[1..], pattern[2..])
    else text != "" && Fold(text[0]) == Fold(pattern[0]) && ILike(text[1..], pattern[1..])
  }

  /** The pattern every search box value is wrapped into. */
  function SearchPattern(search: string): string { "%" + search + "%" }

  predicate NoWildcards(search: string)
  {
    forall i | 0 <= i < |search| :: search[i] != '%' && search[i] != '_' && search[i] != '\\'
  }

  predicate SameFolded(a: string, b: string)
  {
    |a| == |b| && forall i | 0 <= i < |a| :: Fold(a[i]) == Fold(b[i])
  }

  predicate FoundAt(text: string, search: string, i: int)
  {
    0 <= i <= |text| - |search| && SameFolded(text[i..i + |search|], search)
  }

  /** Some stretch of `text` equals `search` up to case. */
  ghost predicate Contains(text: string, search: string)
  {
    exists i :: FoundAt(text, search, i)
  }

  lemma {:induction false} AnySuffixMatches(text: string)
    ensures ILike(text, "%")
  {
    if text != "" {
      AnySuffixMatches(text[1..]);
    }
  }

  lemma {:induction false} PrefixMatches(text: string, search: string)
    requires NoWildcards(search)
    ensures ILike(text, search + "%") <==>
            |search| <= |text| && SameFolded(text[..|search|], search)
    decreases |search|
  {
    var pattern := search + "%";
    if search == "" {
      assert pattern == "%";
      AnySuffixMatches(text);
    } else {
      assert pattern[1..] == search[1..] + "%";
      assert pattern[0] == search[0];
      if text != "" {
        PrefixMatches(text[1..], search[1..]);
        if |search| <= |text| {
          var a, b := text[..|search|], search;
          assert text[1..][..|search| - 1] == a[1..];
          assert SameFolded(a, b) <==> Fold(a[0]) == Fold(b[0]) && SameFolded(a[1..], b[1..]) by {
            if Fold(a[0]) == Fold(b[0]) && SameFolded(a[1..], b[1..]) {
              forall i | 0 <= i < |a|
                ensures Fold(a[i]) == Fold(b[i])
              {
                if i > 0 { assert a[i] == a[1..][i - 1] && b[i] == b[1..][i - 1]; }
              }
            }
          }
        }
      }
    }
  }

  /** A search without wildcard characters finds exactly the texts that contain it, in any case. */
  lemma {:induction false} PlainSearchIsContainment(text: string, search: string)
    requires NoWildcards(search)
    ensures ILike(text, SearchPattern(search)) <==> Contains(text, search)
    decreases |text|
  {
    assert SearchPattern(search)[1..] == search + "%";
    PrefixMatches(text, search);
    assert FoundAt(text, search, 0) <==> |search| <= |text| && SameFolded(text[..|search|], search) by {
      if |search| <= |text| { assert text[0..0 + |search|] == text[..|search|]; }
    }
    if text != "" {
      PlainSearchIsContainment(text[1..], search);
      forall i | 1 <= i <= |text| - |search|
        ensures FoundAt(text, search, i) <==> FoundAt(text[1..], search, i - 1)
      {
        assert text[1..][i - 1..i - 1 + |search|] == text[i..i + |search|];
      }
      if Contains(text[1..], search) {
        var i :| FoundAt(text[1..], search, i);
        assert FoundAt(text, search, i + 1);
      }
    }
  }

  // ---------- With a wildcard character the two differ ----------

  /** A text that a pattern matches: drop each `%`, put an `a` for each `_`, unescape the rest. */
  function Example(pattern: string): string
    decreases |pattern|
  {
    if pattern == "" then ""
    else if pattern[0] == '%' then Example(pattern[1..])
    else if pattern[0] == '_' then "a" + Example(pattern[1..])
    else if pattern[0] == '\\' && |pattern| > 1 then [pattern[1]] + Example(pattern[2..])
    else [pattern[0]] + Example(pattern[1..])
  }

  lemma {:induction false} ExampleMatches(pattern: string)
    requires pattern != "" ==> pattern[|pattern| - 1] == '%'
    ensures ILike(Example(pattern), pattern)
    decreases |pattern|
  {
    if pattern != "" {
      if pattern[0] == '\\' {
        ExampleMatches(pattern[2..]);
      } else {
        ExampleMatches(pattern[1..]);
      }
    }
  }

  /** The example of a search is no longer than the search, and if it is as long, it spells the search
      only when there is no wildcard character in it. */
  lemma {:induction false} ExampleDiffers(search: string)
    ensures var text := Example(search + "%");
            |text| <= |search| && (SameFolded(text, search) ==> NoWildcards(search))
    decreases |search|
  {
    var pattern := search + "%";
    if search == "" {
      assert pattern == "%";
    } else if search[0] == '\\' && |search| > 1 {
      assert pattern[2..] == search[2..] + "%";
      ExampleDiffers(search[2..]);
    } else if search[0] == '\\' {
      assert pattern == "\\%" && Example("") == "";
      assert Example(pattern) == "%";
    } else {
      var rest := search[1..];
      assert pattern[1..] == rest + "%";
      ExampleDiffers(rest);
      var text := Example(pattern);
      if SameFolded(text, search) {
        assert Fold(text[0]) == Fold(search[0]);
        var tail := Example(rest + "%");
        assert text[1..] == tail;
        assert forall i | 0 <= i < |tail| :: tail[i] == text[i + 1] && rest[i] == search[i + 1];
        assert forall i | 1 <= i < |search| :: search[i] == rest[i - 1];
      }
    }
  }

  /** A search with a wildcard character finds a text that does not contain it. */
  lemma WildcardFindsMore(search: string)
    requires !NoWildcards(search)
    ensures var text := Example(search + "%"); ILike(text, SearchPattern(search)) && !Contains(text, search)
  {
    var text := Example(search + "%");
    ExampleMatches(search + "%");
    assert SearchPattern(search)[1..] == search + "%";
    ExampleDiffers(search);
    assert text[0..|text|] == text;
  }

  /** A search finds exactly the texts that contain it, in any case, if and only if it is free of the
      three wildcard characters. */
  lemma SearchIsContainmentIff(search: string)
    ensures (forall text :: ILike(text, SearchPattern(search)) <==> Contains(text, search)) <==> NoWildcards(search)
  {
    if NoWildcards(search) {
      forall text
        ensures ILike(text, SearchPattern(search)) <==> Contains(text, search)
      {
        PlainSearchIsContainment(text, search);
      }
    } else {
      WildcardFindsMore(search);
    }
  }
}
