/** How the two trackers' URL patterns compare. Generator's pattern cannot end a URL on
    `.,;:!?)`, Tracker's can; both then strip the same punctuation. Wherever Generator's
    pattern finds a URL, the two rewrites agree: Tracker's longer match only adds
    punctuation that its strip loop moves behind `</a>`, where Generator copies it as plain
    text. They differ only where a scheme is followed by nothing but such punctuation. */
module VariantComparison {
  import opened Results
  import opened JsText
  import opened LinkScan
  import opened LinkTracking

  /** Where Tracker's pattern matches, Generator's matches too. */
  ghost predicate GeneratorMatchesWhereTrackerDoes(s: string) {
    forall i :: 0 <= i <= |s| && MatchLen(Tracker, s[i..]) > 0 ==> MatchLen(Generator, s[i..]) > 0
  }

  /** Generator's match is a prefix of Tracker's, the rest of which is closing punctuation;
      with no Tracker match there is no Generator match. */
  lemma GeneratorWithinTracker(s: string)
    ensures MatchLen(Generator, s) <= MatchLen(Tracker, s)
    ensures MatchLen(Tracker, s) == 0 ==> MatchLen(Generator, s) == 0
    ensures MatchLen(Generator, s) > 0 ==>
      forall j :: MatchLen(Generator, s) <= j < MatchLen(Tracker, s) ==> s[j] in ClosingPunct
  {
    var k := SchemeLen(s);
    if k > 0 {
      var r := RunLen(s[k..]);
      var run := s[k..k + r];
      var body := DropTrailing(run, ClosingPunct);
      if body != [] {
        forall j | k + |body| <= j < k + r
          ensures s[j] in ClosingPunct
        {
          assert s[j] == run[j - k];
        }
      }
    }
  }

  /** Stripping a URL followed by more strippable punctuation: the clean part is the same
      and the extra punctuation joins the stripped tail. */
  lemma CleanOfPunctTail(u: string, v: string)
    requires forall j :: 0 <= j < |v| ==> v[j] in TrailingPunct
    ensures Clean(u + v) == Clean(u)
    ensures Punct(u + v) == Punct(u) + v
  {
    var c := Clean(u);
    forall j | |c| <= j < |u + v|
      ensures (u + v)[j] in TrailingPunct
    {
      if j >= |u| {
        assert (u + v)[j] == v[j - |u|];
      }
    }
    assert c <= u + v;
    DropTrailingUnique(u + v, TrailingPunct, c);
    assert (u + v)[|c|..] == u[|c|..] + v;
  }

  /** The two anchors differ only by the punctuation Tracker's match took in. */
  lemma AnchorOfLongerMatch(clickUrl: string, trackingId: string, email: string, u: string, v: string)
    requires forall j :: 0 <= j < |v| ==> v[j] in TrailingPunct
    ensures var a, b := Anchor(clickUrl, trackingId, email, u), Anchor(clickUrl, trackingId, email, u + v);
      (a.Ok? <==> b.Ok?) && (a.Ok? ==> b.value == a.value + v)
  {
    CleanOfPunctTail(u, v);
    var a := Anchor(clickUrl, trackingId, email, u);
    if a.Ok? {
      var head := AnchorHead(clickUrl, trackingId, email) + Base64.Encode(Clean(u)) + AnchorStyle + Clean(u) + "</a>";
      assert a.value == head + Punct(u);
      assert head + (Punct(u) + v) == head + Punct(u) + v;
    }
  }

  /** A character that cannot start a URL is copied as it is. */
  lemma TrackLinksSkipAt(p: Pattern, s: string, g: nat, clickUrl: string, trackingId: string, email: string)
    requires g < |s| && s[g] != 'h'
    ensures TrackLinks(p, s[g..], clickUrl, trackingId, email)
         == Prepend([s[g]], TrackLinks(p, s[g + 1..], clickUrl, trackingId, email))
  {
    assert s[g..][0] == s[g] && s[g..][1..] == s[g + 1..];
    NoMatchAtPlain(p, s[g..]);
    TrackLinksAtPlain(p, s[g..], clickUrl, trackingId, email);
  }

  /** Characters that cannot start a URL are copied one by one. */
  lemma {:induction false} TrackLinksSkipRange(p: Pattern, s: string, g: nat, t: nat, clickUrl: string, trackingId: string, email: string)
    requires g <= t <= |s|
    requires forall j :: g <= j < t ==> s[j] != 'h'
    ensures TrackLinks(p, s[g..], clickUrl, trackingId, email)
         == Prepend(s[g..t], TrackLinks(p, s[t..], clickUrl, trackingId, email))
    decreases t - g
  {
    if g == t {
      assert s[g..t] == [];
      PrependNothing(TrackLinks(p, s[t..], clickUrl, trackingId, email));
    } else {
      ghost var whole := TrackLinks(p, s[g..], clickUrl, trackingId, email);
      ghost var next := TrackLinks(p, s[g + 1..], clickUrl, trackingId, email);
      ghost var rest := TrackLinks(p, s[t..], clickUrl, trackingId, email);
      TrackLinksSkipAt(p, s, g, clickUrl, trackingId, email);
      TrackLinksSkipRange(p, s, g + 1, t, clickUrl, trackingId, email);
      Chain(whole, next, rest, [s[g]], s[g + 1..t]);
      ConsSlice(s, g, t);
    }
  }

  lemma ConsSlice(s: string, g: nat, t: nat)
    requires g < t <= |s|
    ensures [s[g]] + s[g + 1..t] == s[g..t]
  {
  }

  lemma NoMatchAtPlain(p: Pattern, s: string)
    requires s != [] && s[0] != 'h'
    ensures MatchLen(p, s) == 0
  {
  }

  lemma PrependNothing(r: Result<string>)
    ensures Prepend([], r) == r
  {
    if r.Ok? {
      assert [] + r.value == r.value;
    }
  }

  /** The hypothesis holds on every suffix of a text it holds on. */
  lemma HypothesisOnSuffix(s: string, m: nat)
    requires m <= |s| && GeneratorMatchesWhereTrackerDoes(s)
    ensures GeneratorMatchesWhereTrackerDoes(s[m..])
  {
    forall i | 0 <= i <= |s[m..]| && MatchLen(Tracker, s[m..][i..]) > 0
      ensures MatchLen(Generator, s[m..][i..]) > 0
    {
      assert s[m..][i..] == s[m + i..];
    }
  }

  /** A character that cannot start a URL adds no match. */
  lemma MatchesSkipAt(p: Pattern, s: string, g: nat)
    requires g < |s| && s[g] != 'h'
    ensures Matches(p, s[g..]) == Matches(p, s[g + 1..])
  {
    assert s[g..][0] == s[g] && s[g..][1..] == s[g + 1..];
    MatchesSkip(p, s[g..]);
  }

  /** A stretch with no `h` adds no match. */
  lemma {:induction false} MatchesSkipRange(p: Pattern, s: string, g: nat, t: nat)
    requires g <= t <= |s|
    requires forall j :: g <= j < t ==> s[j] != 'h'
    ensures Matches(p, s[g..]) == Matches(p, s[t..])
    decreases t - g
  {
    if g < t {
      MatchesSkipAt(p, s, g);
      MatchesSkipRange(p, s, g + 1, t);
    }
  }

  /** Between the end of Generator's match and the end of Tracker's lies only closing
      punctuation. */
  lemma ClosingTail(s: string)
    requires MatchLen(Generator, s) > 0
    ensures var g, t := MatchLen(Generator, s), MatchLen(Tracker, s);
      && g <= t
      && s[..t] == s[..g] + s[g..t]
      && (forall j :: 0 <= j < t - g ==> s[g..t][j] in TrailingPunct)
      && (forall j :: g <= j < t ==> s[j] != 'h')
  {
    GeneratorWithinTracker(s);
    PunctTail(s, MatchLen(Generator, s), MatchLen(Tracker, s));
  }

  /** Slicing facts about a stretch of closing punctuation between `g` and `t`. */
  lemma PunctTail(s: string, g: nat, t: nat)
    requires g <= t <= |s|
    requires forall j :: g <= j < t ==> s[j] in ClosingPunct
    ensures s[..t] == s[..g] + s[g..t]
    ensures forall j :: 0 <= j < t - g ==> s[g..t][j] in TrailingPunct
    ensures forall j :: g <= j < t ==> s[j] != 'h'
  {
    forall j | 0 <= j < t - g
      ensures s[g..t][j] in TrailingPunct
    {
      assert s[g..t][j] == s[g + j];
    }
    assert s[..t] == s[..g] + s[g..t];
  }

  lemma AgreeAtMatch(s: string, clickUrl: string, trackingId: string, email: string)
    requires s != [] && MatchLen(Generator, s) > 0
    requires var t := MatchLen(Tracker, s);
      t <= |s| && TrackLinks(Generator, s[t..], clickUrl, trackingId, email) == TrackLinks(Tracker, s[t..], clickUrl, trackingId, email)
    ensures TrackLinks(Generator, s, clickUrl, trackingId, email) == TrackLinks(Tracker, s, clickUrl, trackingId, email)
  {
    ClosingTail(s);
    var g, t := MatchLen(Generator, s), MatchLen(Tracker, s);
    var u, v := s[..g], s[g..t];
    AnchorOfLongerMatch(clickUrl, trackingId, email, u, v);
    ghost var viaGenerator := TrackLinks(Generator, s, clickUrl, trackingId, email);
    ghost var viaTracker := TrackLinks(Tracker, s, clickUrl, trackingId, email);
    var anchor := Anchor(clickUrl, trackingId, email, u);
    if anchor.Failure? {
      TrackLinksAtBadMatch(Generator, s, clickUrl, trackingId, email, u);
      TrackLinksAtBadMatch(Tracker, s, clickUrl, trackingId, email, u + v);
      assert viaGenerator.error == viaTracker.error;
    } else {
      ghost var afterGenerator := TrackLinks(Generator, s[g..], clickUrl, trackingId, email);
      ghost var rest := TrackLinks(Tracker, s[t..], clickUrl, trackingId, email);
      assert viaTracker == Prepend(anchor.value + v, rest) by {
        TrackLinksAtMatch(Tracker, s, clickUrl, trackingId, email, u + v, anchor.value + v);
      }
      assert viaGenerator == Prepend(anchor.value, afterGenerator) by {
        TrackLinksAtMatch(Generator, s, clickUrl, trackingId, email, u, anchor.value);
      }
      assert afterGenerator == Prepend(v, rest) by {
        TrackLinksSkipRange(Generator, s, g, t, clickUrl, trackingId, email);
      }
      Chain(viaGenerator, afterGenerator, rest, anchor.value, v);
    }
  }

  lemma CountAtMatch(s: string)
    requires s != [] && MatchLen(Generator, s) > 0
    requires var t := MatchLen(Tracker, s);
      t <= |s| && |Matches(Generator, s[t..])| == |Matches(Tracker, s[t..])|
    ensures |Matches(Generator, s)| == |Matches(Tracker, s)|
  {
    GeneratorWithinTracker(s);
    CountAfterMatch(Generator, s);
    CountAfterMatch(Tracker, s);
    GeneratorSkipsTail(s);
  }

  /** A match at the start adds one to the count of what follows it. */
  lemma CountAfterMatch(p: Pattern, s: string)
    requires s != [] && MatchLen(p, s) > 0
    ensures |Matches(p, s)| == 1 + |Matches(p, s[MatchLen(p, s)..])|
  {
    MatchesStep(p, s);
  }

  /** After its own match, Generator's pattern finds nothing in the punctuation Tracker's
      match went on to take. */
  lemma GeneratorSkipsTail(s: string)
    requires MatchLen(Generator, s) > 0
    ensures Matches(Generator, s[MatchLen(Generator, s)..]) == Matches(Generator, s[MatchLen(Tracker, s)..])
  {
    ClosingTail(s);
    MatchesSkipRange(Generator, s, MatchLen(Generator, s), MatchLen(Tracker, s));
  }

  /** Under the hypothesis, both trackers rewrite a text the same way (for the same base
      URLs, id and email) and count the same number of URLs in it. */
  lemma {:induction false} VariantsAgree(s: string, clickUrl: string, trackingId: string, email: string)
    requires GeneratorMatchesWhereTrackerDoes(s)
    ensures TrackLinks(Generator, s, clickUrl, trackingId, email) == TrackLinks(Tracker, s, clickUrl, trackingId, email)
    ensures |Matches(Generator, s)| == |Matches(Tracker, s)|
    decreases |s|
  {
    if s != [] {
      GeneratorWithinTracker(s);
      var t := MatchLen(Tracker, s);
      if t == 0 {
        HypothesisOnSuffix(s, 1);
        VariantsAgree(s[1..], clickUrl, trackingId, email);
        TrackLinksAtPlain(Generator, s, clickUrl, trackingId, email);
        TrackLinksAtPlain(Tracker, s, clickUrl, trackingId, email);
        MatchesStep(Generator, s);
        MatchesStep(Tracker, s);
      } else {
        assert s[0..] == s;
        HypothesisOnSuffix(s, t);
        VariantsAgree(s[t..], clickUrl, trackingId, email);
        AgreeAtMatch(s, clickUrl, trackingId, email);
        CountAtMatch(s);
      }
    }
  }

  /** A text with no match at its start and no `h` after it is copied unchanged. */
  lemma PlainAfterFirst(p: Pattern, s: string, clickUrl: string, trackingId: string, email: string)
    requires s != [] && MatchLen(p, s) == 0
    requires forall j :: 1 <= j < |s| ==> s[j] != 'h'
    ensures TrackLinks(p, s, clickUrl, trackingId, email) == Ok(s)
    ensures Matches(p, s) == []
  {
    ghost var whole := TrackLinks(p, s, clickUrl, trackingId, email);
    ghost var next := TrackLinks(p, s[1..], clickUrl, trackingId, email);
    ghost var rest := TrackLinks(p, s[|s|..], clickUrl, trackingId, email);
    assert whole == Prepend([s[0]], next) by {
      TrackLinksAtPlain(p, s, clickUrl, trackingId, email);
    }
    assert next == Prepend(s[1..|s|], rest) by {
      TrackLinksSkipRange(p, s, 1, |s|, clickUrl, trackingId, email);
    }
    assert rest == Ok([]) by {
      assert s[|s|..] == [];
    }
    Chain(whole, next, rest, [s[0]], s[1..|s|]);
    assert [s[0]] + s[1..|s|] + [] == s;
    assert Matches(p, s) == Matches(p, s[1..]) by {
      MatchesStep(p, s);
    }
    assert Matches(p, s[1..]) == Matches(p, s[|s|..]) by {
      MatchesSkipRange(p, s, 1, |s|);
    }
    assert s[|s|..] == [];
  }

  lemma CleanOfCleanEnd(u: string)
    requires u != [] && u[|u| - 1] !in TrailingPunct
    ensures Clean(u) == u
  {
  }

  /** The matches at the start of `http://.`. */
  lemma BareSchemeMatchLens()
    ensures MatchLen(Generator, "http://.") == 0 && MatchLen(Tracker, "http://.") == 8
  {
    var s := "http://.";
    assert !("https://" <= s) by {
      assert s[4] == ':';
    }
    assert "http://" <= s by {
      assert s[..7] == "http://";
    }
    assert s[7..] == ".";
    assert DropTrailing(".", ClosingPunct) == [] by {
      assert "."[..0] == [];
    }
  }

  /** A scheme followed only by closing punctuation: Tracker's pattern takes it as a URL and
      Generator's does not, so the hypothesis fails. */
  lemma BareSchemeMatches()
    ensures Matches(Generator, "http://.") == [] && Matches(Tracker, "http://.") == ["http://."]
    ensures !GeneratorMatchesWhereTrackerDoes("http://.")
  {
    var s := "http://.";
    assert Matches(Generator, s) == [] by {
      BareSchemeMatchLens();
      PlainAfterFirst(Generator, s, "", "", "");
    }
    assert Matches(Tracker, s) == [s] by {
      BareSchemeMatchLens();
      WholeMatch(Tracker, s);
    }
    assert !GeneratorMatchesWhereTrackerDoes(s) by {
      BareSchemeMatchLens();
      assert s[0..] == s;
    }
  }

  /** A text matched from start to end is the only match in it. */
  lemma WholeMatch(p: Pattern, s: string)
    requires s != [] && MatchLen(p, s) == |s|
    ensures Matches(p, s) == [s]
  {
    MatchesStep(p, s);
    assert s[..|s|] == s && s[|s|..] == [];
  }

  /** Generator leaves `http://.` as it is. */
  lemma BareSchemeGenerator(clickUrl: string, trackingId: string, email: string)
    ensures TrackLinks(Generator, "http://.", clickUrl, trackingId, email) == Ok("http://.")
  {
    BareSchemeMatchLens();
    PlainAfterFirst(Generator, "http://.", clickUrl, trackingId, email);
  }

  /** Tracker turns `http://.` into the anchor on `http://`, followed by the `.`. */
  lemma BareSchemeTracker(clickUrl: string, trackingId: string, email: string)
    ensures var a := Anchor(clickUrl, trackingId, email, "http://.");
      && a.Ok?
      && TrackLinks(Tracker, "http://.", clickUrl, trackingId, email) == Ok(a.value)
      && a.value != "http://."
    ensures Clean("http://.") == "http://" && Punct("http://.") == "."
  {
    BareSchemeMatchLens();
    BareSchemeAnchor(clickUrl, trackingId, email);
    WholeMatchRender(Tracker, "http://.", clickUrl, trackingId, email);
    BareSchemeClean();
  }

  /** A text that is one match renders as its anchor alone. */
  lemma WholeMatchRender(p: Pattern, s: string, clickUrl: string, trackingId: string, email: string)
    requires s != [] && MatchLen(p, s) == |s| && Anchor(clickUrl, trackingId, email, s).Ok?
    ensures TrackLinks(p, s, clickUrl, trackingId, email) == Ok(Anchor(clickUrl, trackingId, email, s).value)
  {
    var a := Anchor(clickUrl, trackingId, email, s).value;
    assert s[..|s|] == s && s[|s|..] == [];
    TrackLinksAtMatch(p, s, clickUrl, trackingId, email, s, a);
    assert TrackLinks(p, [], clickUrl, trackingId, email) == Ok([]);
    assert a + [] == a;
  }

  lemma BareSchemeAnchor(clickUrl: string, trackingId: string, email: string)
    ensures Anchor(clickUrl, trackingId, email, "http://.").Ok?
    ensures Anchor(clickUrl, trackingId, email, "http://.").value[0] == '<'
  {
    BareSchemeClean();
    AnchorStartsWithTag(clickUrl, trackingId, email, "http://.");
  }

  lemma BareSchemeClean()
    ensures Clean("http://.") == "http://" && Base64.IsLatin1("http://")
    ensures Punct("http://.") == "."
  {
    assert "http://" + "." == "http://.";
    CleanOfPunctTail("http://", ".");
    assert "http://"[6] == '/';
    CleanOfCleanEnd("http://");
    assert Punct("http://") == [];
  }

  /** An anchor starts a tag. */
  lemma AnchorStartsWithTag(clickUrl: string, trackingId: string, email: string, url: string)
    requires Base64.IsLatin1(Clean(url))
    ensures Anchor(clickUrl, trackingId, email, url).Ok?
    ensures Anchor(clickUrl, trackingId, email, url).value[0] == '<'
  {
    AnchorLayout(clickUrl, trackingId, email, url);
    assert AnchorHead(clickUrl, trackingId, email)[0] == '<';
  }
}
