/**
 * The colon-separated tokenizer of 03.Non-1-1.cpp.  The iterator keeps the
 * input it has not consumed yet and the token it will hand out next; the
 * token is read eagerly, when the iterator is built and when it is
 * incremented.
 */
module ColonSep {
  /** A token, or the end marker, whose text is "ERROR". */
  datatype MaybeString = MaybeString(value: string, atEnd: bool)

  const EndMarker: MaybeString := MaybeString("ERROR", true)

  function Present(s: string): MaybeString { MaybeString(s, false) }

  predicate NoColon(s: string) { forall k :: 0 <= k < |s| ==> s[k] != ':' }

  predicate AllColons(s: string) { forall k :: 0 <= k < |s| ==> s[k] == ':' }

  /** The first loop of `read_item`: the characters up to the first ':'. */
  function TakeToken(s: string): (t: string)
    ensures |t| <= |s|
  {
    if s == [] || s[0] == ':' then [] else [s[0]] + TakeToken(s[1..])
  }

  /** The token is the longest prefix free of ':': the input is the token
      followed by the rest, the token holds no ':', and a ':' follows it
      unless it is the whole input. */
  lemma {:induction false} TakeTokenSpec(s: string)
    ensures var t := TakeToken(s);
            && s == t + s[|t|..] && NoColon(t)
            && (|t| < |s| ==> s[|t|] == ':')
  {
    if s != [] && s[0] != ':' {
      var u := TakeToken(s[1..]);
      var t := [s[0]] + u;
      var r := s[|u| + 1..];
      TakeTokenSpec(s[1..]);
      assert TakeToken(s) == t;
      assert s[1..][|u|..] == r && s[|t|..] == r;
      assert s == [s[0]] + s[1..];
      assert [s[0]] + (u + r) == t + r;
      forall k | 0 <= k < |t|
        ensures t[k] != ':'
      {
        if k > 0 {
          assert t[k] == u[k - 1];
        }
      }
      if |t| < |s| {
        assert s[|t|] == s[1..][|u|];
      }
    }
  }

  /** The second loop of `read_item`: drop every leading ':'. */
  function SkipColons(s: string): (r: string)
    ensures |r| <= |s|
  {
    if s != [] && s[0] == ':' then SkipColons(s[1..]) else s
  }

  /** The colons `SkipColons` drops. */
  function LeadingColons(s: string): string
  {
    if s != [] && s[0] == ':' then [':'] + LeadingColons(s[1..]) else []
  }

  /** The input is its leading colons followed by what `SkipColons` keeps,
      which does not start with ':'. */
  lemma {:induction false} SkipColonsSpec(s: string)
    ensures s == LeadingColons(s) + SkipColons(s)
    ensures AllColons(LeadingColons(s))
    ensures SkipColons(s) == [] || SkipColons(s)[0] != ':'
  {
    if s != [] && s[0] == ':' {
      SkipColonsSpec(s[1..]);
      var c := LeadingColons(s[1..]);
      assert s == [':'] + s[1..];
      assert [':'] + (c + SkipColons(s[1..])) == [':'] + c + SkipColons(s[1..]);
      var cs := LeadingColons(s);
      forall k | 0 <= k < |cs|
        ensures cs[k] == ':'
      {
        if k > 0 {
          assert cs[k] == c[k - 1];
        }
      }
    }
  }

  /** `read_item`: a token and the input after it and the colons that follow;
      an empty token reads as the end. */
  function ReadItem(s: string): (MaybeString, string)
  {
    var t := TakeToken(s);
    var rest := SkipColons(s[|t|..]);
    (if |t| == 0 then EndMarker else Present(t), rest)
  }

  /** `next_item`: the end on exhausted input, otherwise `read_item`. */
  function NextItem(s: string): (MaybeString, string)
  {
    if s == [] then (EndMarker, s) else ReadItem(s)
  }

  /** The input splits into the token, the colons after it and the rest. */
  lemma ReadItemSplit(s: string)
    requires s != [] && s[0] != ':'
    ensures var t := TakeToken(s);
            var rest := SkipColons(s[|t|..]);
            var colons := LeadingColons(s[|t|..]);
            && |t| > 0 && NoColon(t) && AllColons(colons) && s == t + colons + rest
            && (rest == [] || rest[0] != ':') && (rest != [] ==> colons != [])
  {
    var t := TakeToken(s);
    var after := s[|t|..];
    var rest := SkipColons(after);
    var colons := LeadingColons(after);
    TakeTokenSpec(s);
    SkipColonsSpec(after);
    assert |t| > 0 by {
      assert TakeToken(s) == [s[0]] + TakeToken(s[1..]);
    }
    assert t + (colons + rest) == t + colons + rest;
    assert after != [] ==> after[0] == s[|t|];
  }

  /** What one step reads: the end exactly when the input is exhausted or
      starts with ':'; otherwise a non-empty, colon-free token that, with some
      colons, precedes the rest, which is strictly shorter and does not start
      with ':'. */
  lemma NextItemSpec(s: string)
    ensures NextItem(s).0.atEnd <==> s == [] || s[0] == ':'
    ensures NextItem(s).0.atEnd ==> NextItem(s).0 == EndMarker
    ensures !NextItem(s).0.atEnd ==>
              var t := NextItem(s).0.value;
              var rest := NextItem(s).1;
              && |t| > 0 && NoColon(t)
              && |rest| < |s| && (rest == [] || rest[0] != ':')
              && exists colons :: AllColons(colons) && s == t + colons + rest && (rest != [] ==> colons != [])
  {
    if s != [] && s[0] != ':' {
      ReadItemSplit(s);
      var t := TakeToken(s);
      var colons := LeadingColons(s[|t|..]);
      assert AllColons(colons) && s == t + colons + SkipColons(s[|t|..]);
    }
  }

  lemma TakeTokenStep(s: string, i: int)
    requires 0 <= i <= |s|
    ensures i == |s| || s[i] == ':' ==> TakeToken(s[i..]) == []
    ensures i < |s| && s[i] != ':' ==> TakeToken(s[i..]) == [s[i]] + TakeToken(s[i + 1..])
  {
    if i < |s| {
      assert s[i..][0] == s[i];
      assert s[i..][1..] == s[i + 1..];
    }
  }

  lemma SkipColonsStep(s: string, j: int)
    requires 0 <= j <= |s|
    ensures j == |s| || s[j] != ':' ==> SkipColons(s[j..]) == s[j..]
    ensures j < |s| && s[j] == ':' ==> SkipColons(s[j..]) == SkipColons(s[j + 1..])
  {
    if j < |s| {
      assert s[j..][0] == s[j];
      assert s[j..][1..] == s[j + 1..];
    }
  }

  /** `read_item` with its two loops. */
  method ReadItemLoop(s: string) returns (item: MaybeString, rest: string)
    ensures (item, rest) == ReadItem(s)
  {
    var i := 0;
    var ret := "";
    while i < |s|
      invariant 0 <= i <= |s| && ret == s[..i]
      invariant TakeToken(s) == ret + TakeToken(s[i..])
    {
      if s[i] == ':' {
        break;
      }
      TakeTokenStep(s, i);
      ret := ret + [s[i]];
      assert s[..i + 1] == s[..i] + [s[i]];
      i := i + 1;
    }
    TakeTokenStep(s, i);
    assert TakeToken(s) == ret;
    var j := i;
    while j < |s|
      invariant i <= j <= |s|
      invariant SkipColons(s[i..]) == SkipColons(s[j..])
    {
      if s[j] != ':' {
        break;
      }
      SkipColonsStep(s, j);
      assert SkipColons(s[j..]) == SkipColons(s[j + 1..]);
      j := j + 1;
    }
    SkipColonsStep(s, j);
    rest := s[j..];
    item := if |ret| == 0 then EndMarker else Present(ret);
  }

  datatype Tokenizer = Tokenizer(rest: string, next: MaybeString)

  /** The constructor reads the first item at once. */
  function Make(s: string): (it: Tokenizer)
    ensures Valid(it)
    ensures it.next.atEnd <==> s == [] || s[0] == ':'
  {
    NextItemSpec(s);
    var (n, r) := NextItem(s);
    Tokenizer(r, n)
  }

  function Deref(it: Tokenizer): string { it.next.value }

  /** `operator==` looks only at whether each side is at the end. */
  function Equal(a: Tokenizer, b: Tokenizer): (r: bool)
    ensures r <==> a.next.atEnd == b.next.atEnd
  {
    a.next.atEnd == b.next.atEnd
  }

  /** Prefix increment reads the next item from the input left over. */
  function PreInc(it: Tokenizer): (r: Tokenizer)
    ensures Valid(r)
    ensures r.next.atEnd <==> it.rest == [] || it.rest[0] == ':'
    ensures !r.next.atEnd ==> |r.rest| < |it.rest|
  {
    NextItemSpec(it.rest);
    var (n, r) := NextItem(it.rest);
    Tokenizer(r, n)
  }

  /** What postfix increment returns, and the iterator it leaves behind. */
  datatype Stepped = Stepped(returned: Tokenizer, advanced: Tokenizer)

  /** Postfix increment as written: the copy it returns is built from the
      input that is left, which starts after the current token. */
  function PostIncAsWritten(it: Tokenizer): Stepped
  {
    Stepped(Make(it.rest), PreInc(it))
  }

  /** Postfix increment as intended: the copy returned is the iterator before
      the increment. */
  function PostInc(it: Tokenizer): Stepped
  {
    Stepped(it, PreInc(it))
  }

  function Begin(s: string): Tokenizer { Make(s) }

  function End(s: string): Tokenizer { Make([]) }

  /** `==` is an equivalence relation with two classes: every end iterator
      equals every other, and every iterator that is not at the end equals
      every other such iterator, whatever its token.  So two iterators can
      be equal yet dereference to different tokens. */
  lemma EqualityIgnoresTokens(a: Tokenizer, b: Tokenizer, c: Tokenizer, s: string)
    ensures Equal(a, a)
    ensures Equal(a, b) ==> Equal(b, a)
    ensures Equal(a, b) && Equal(b, c) ==> Equal(a, c)
    ensures a.next.atEnd && b.next.atEnd ==> Equal(a, b)
    ensures !a.next.atEnd && !b.next.atEnd ==> Equal(a, b)
    ensures Equal(a, End(s)) <==> a.next.atEnd
    ensures Equal(Begin("a"), Begin("b")) && Deref(Begin("a")) != Deref(Begin("b"))
  {
    assert TakeToken("a") == "a" by {
      assert "a"[1..] == [];
    }
    assert TakeToken("b") == "b" by {
      assert "b"[1..] == [];
    }
  }

  /** As written, the copy postfix increment returns is indistinguishable
      from the advanced iterator: it holds the next token, not the current
      one. */
  lemma PostIncAsWrittenReturnsAdvanced(it: Tokenizer)
    ensures PostIncAsWritten(it).returned == PostIncAsWritten(it).advanced
    ensures Deref(PostIncAsWritten(it).returned) == Deref(PreInc(it))
  {
  }

  lemma TakeTokenExample()
    ensures TakeToken("aa:foo") == "aa"
  {
    var s := "aa:foo";
    TakeTokenStep(s, 2);
    TakeTokenStep(s, 1);
    TakeTokenStep(s, 0);
    assert s[0..] == s;
  }

  lemma SkipColonsExample()
    ensures SkipColons("aa:foo"[2..]) == "foo"
  {
    var s := "aa:foo";
    SkipColonsStep(s, 2);
    SkipColonsStep(s, 3);
    assert s[3..] == "foo";
  }

  lemma TakeTokenWhole()
    ensures TakeToken("foo") == "foo"
  {
    var f := "foo";
    TakeTokenStep(f, 3);
    TakeTokenStep(f, 2);
    TakeTokenStep(f, 1);
    TakeTokenStep(f, 0);
    assert f[0..] == f;
  }

  lemma ReadItemExamples()
    ensures ReadItem("aa:foo") == (Present("aa"), "foo")
    ensures ReadItem("foo") == (Present("foo"), "")
  {
    TakeTokenExample();
    SkipColonsExample();
    TakeTokenWhole();
    assert "foo"[3..] == "";
  }

  /** On "aa:foo", postfix increment of `begin()` should return an iterator
      reading "aa"; as written it reads "foo". */
  lemma PostIncExample()
    ensures Deref(Begin("aa:foo")) == "aa"
    ensures Deref(PostIncAsWritten(Begin("aa:foo")).returned) == "foo"
    ensures Deref(PostInc(Begin("aa:foo")).returned) == "aa"
  {
    ReadItemExamples();
    assert Begin("aa:foo") == Tokenizer("foo", Present("aa"));
    assert Make("foo") == Tokenizer("", Present("foo"));
  }

  /** The intended postfix increment hands back the current token and
      advances as prefix increment does. */
  lemma PostIncSpec(it: Tokenizer)
    ensures Deref(PostInc(it).returned) == Deref(it)
    ensures PostInc(it).advanced == PreInc(it)
  {
  }

  /** Increment, reading each token, until the iterator equals the end: the
      loops of the range constructor and range-for. */
  function Collect(it: Tokenizer): seq<string>
    decreases |it.rest| + (if it.next.atEnd then 0 else 1)
  {
    if it.next.atEnd then []
    else
      NextItemSpec(it.rest);
      [Deref(it)] + Collect(PreInc(it))
  }

  /** The tokens of a whole input: each is non-empty and colon-free. */
  function Tokens(s: string): (ts: seq<string>)
    ensures forall k :: 0 <= k < |ts| ==> |ts[k]| > 0 && NoColon(ts[k])
  {
    TokensWellFormed(Begin(s));
    Collect(Begin(s))
  }

  /** The colon-free runs of `s`, scanned one character at a time; `cur` is
      the run being built. */
  function Runs(s: string, cur: string): seq<string>
  {
    if s == [] then (if cur == [] then [] else [cur])
    else if s[0] == ':' then (if cur == [] then Runs(s[1..], []) else [cur] + Runs(s[1..], []))
    else Runs(s[1..], cur + [s[0]])
  }

  lemma {:induction false} RunsAbsorbToken(t: string, u: string, cur: string)
    requires NoColon(t)
    ensures Runs(t + u, cur) == Runs(u, cur + t)
    decreases |t|
  {
    if t == [] {
      assert t + u == u && cur + t == cur;
    } else {
      var w := t + u;
      assert w != [] && w[0] == t[0] && w[0] != ':';
      assert w[1..] == t[1..] + u;
      assert Runs(w, cur) == Runs(w[1..], cur + [t[0]]);
      RunsAbsorbToken(t[1..], u, cur + [t[0]]);
      assert cur + [t[0]] + t[1..] == cur + t;
    }
  }

  lemma {:induction false} RunsSkipColons(colons: string, u: string)
    requires AllColons(colons)
    ensures Runs(colons + u, []) == Runs(u, [])
    decreases |colons|
  {
    if colons == [] {
      assert colons + u == u;
    } else {
      var w := colons + u;
      assert w != [] && w[0] == ':';
      assert w[1..] == colons[1..] + u;
      assert Runs(w, []) == Runs(w[1..], []);
      RunsSkipColons(colons[1..], u);
    }
  }

  /** One token followed by at least one colon (or by nothing) contributes
      exactly that token to the runs. */
  lemma RunsStep(t: string, colons: string, rest: string)
    requires |t| > 0 && NoColon(t) && AllColons(colons)
    requires rest != [] ==> colons != []
    ensures Runs(t + colons + rest, []) == [t] + Runs(rest, [])
  {
    RunsAbsorbToken(t, colons + rest, []);
    assert t + colons + rest == t + (colons + rest);
    assert [] + t == t;
    if colons == [] {
      assert colons + rest == [];
    } else {
      var w := colons + rest;
      assert w[0] == ':';
      assert w[1..] == colons[1..] + rest;
      assert Runs(w, t) == [t] + Runs(w[1..], []);
      RunsSkipColons(colons[1..], rest);
    }
  }

  /** Iterating from input that does not start with ':' yields exactly its
      colon-free runs, in order. */
  lemma {:induction false} CollectIsRuns(s: string)
    requires s == [] || s[0] != ':'
    ensures Collect(Make(s)) == Runs(s, [])
    decreases |s|
  {
    NextItemSpec(s);
    if s != [] {
      var it := Make(s);
      var t := it.next.value;
      var rest := it.rest;
      var colons :| AllColons(colons) && s == t + colons + rest && (rest != [] ==> colons != []);
      assert PreInc(it) == Make(rest);
      CollectIsRuns(rest);
      assert Collect(it) == [t] + Collect(Make(rest));
      RunsStep(t, colons, rest);
    }
  }

  /** The tokens of a string: none when it starts with ':' (the first token
      is empty and reads as the end), otherwise its colon-free runs. */
  lemma TokensSpec(s: string)
    ensures Tokens(s) == if s != [] && s[0] == ':' then [] else Runs(s, [])
  {
    if s != [] && s[0] == ':' {
      NextItemSpec(s);
    } else {
      CollectIsRuns(s);
    }
  }

  /** Iterators built by `Make` hold a non-empty, colon-free token. */
  predicate Valid(it: Tokenizer)
  {
    !it.next.atEnd ==> |it.next.value| > 0 && NoColon(it.next.value)
  }

  lemma {:induction false} TokensWellFormed(it: Tokenizer)
    requires Valid(it)
    ensures forall k :: 0 <= k < |Collect(it)| ==> |Collect(it)[k]| > 0 && NoColon(Collect(it)[k])
    decreases |it.rest| + (if it.next.atEnd then 0 else 1)
  {
    if !it.next.atEnd {
      NextItemSpec(it.rest);
      var next := PreInc(it);
      TokensWellFormed(next);
      var tail := Collect(next);
      assert Collect(it) == [Deref(it)] + tail;
      forall k | 0 <= k < |Collect(it)|
        ensures |Collect(it)[k]| > 0 && NoColon(Collect(it)[k])
      {
        if k > 0 {
          assert Collect(it)[k] == tail[k - 1];
        }
      }
    }
  }

  /** The runs of the test input, one character at a time. */
  lemma RunsExample()
    ensures Runs("aa:foo::x", []) == ["aa", "foo", "x"]
  {
    RunsStep("aa", ":", "foo::x");
    assert "aa" + ":" + "foo::x" == "aa:foo::x";
    RunsStep("foo", "::", "x");
    assert "foo" + "::" + "x" == "foo::x";
    RunsStep("x", "", "");
    assert "x" + "" + "" == "x";
  }

  /** The test: "aa:foo::x" gives "aa", "foo", "x", with no empty token for
      the doubled colon; the empty string and ":x" give none, and for the
      empty string `begin()` already equals `end()`. */
  lemma TokensExamples()
    ensures Tokens("aa:foo::x") == ["aa", "foo", "x"]
    ensures Tokens("") == [] && Equal(Begin(""), End(""))
    ensures Tokens(":x") == []
  {
    TokensSpec("aa:foo::x");
    RunsExample();
    TokensSpec(":x");
  }
}
