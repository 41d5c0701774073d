/** A concrete bot entry on which the entry detour answers a search for a
    `<button>` with a `.chip`: the detour never looks at the selector it is
    given (scripts.js:25 and 32-47). */
module DetourSample {
  import opened Dom
  import opened ShadowSearch

  // A bot entry whose chips hold one `.chip`, inside a `.content` element.
  const SampleChip := Node("div", {"chip"}, [], None, "")
  const SampleWrapper := Node("div", {"df-chips-wrapper"}, [SampleChip], None, "")
  const SampleChipsRoot := Node("#shadow-root", {}, [SampleWrapper], None, "")
  const SampleChips := Node("df-chips", {}, [], Some(SampleChipsRoot), "")
  const SampleStack := Node("div", {"message-stack"}, [SampleChips], None, "")
  const SampleUtteranceRoot := Node("#shadow-root", {}, [SampleStack], None, "")
  const SampleUtterance := Node("df-messenger-utterance", {}, [], Some(SampleUtteranceRoot), "")
  const SampleEntry := Node("div", {"entry", "bot"}, [SampleUtterance], None, "")
  const SampleContent := Node("div", {"content"}, [SampleEntry], None, "")

  /** The detour path through the sample entry, from the entry on. */
  const SampleDetour: Path := [Child(0), Shadow, Child(0), Child(0), Shadow, Child(0), Child(0)]

  lemma SampleChipsPart()
    ensures Follow(SampleStack, EntryRoute[3..]) == Some(SampleDetour[3..])
  {
    assert EntryRoute[6..] == [Select(ByClass("chip"))] && EntryRoute[6..][1..] == [];
    assert EntryRoute[5..][0] == Select(ByClass("df-chips-wrapper")) && EntryRoute[5..][1..] == EntryRoute[6..];
    assert EntryRoute[4..][0] == EnterShadow && EntryRoute[4..][1..] == EntryRoute[5..];
    assert EntryRoute[3..][0] == Select(ByTag("df-chips")) && EntryRoute[3..][1..] == EntryRoute[4..];
    assert At(SampleWrapper, [Child(0)]) == Some(SampleChip);
    assert Follow(SampleChip, EntryRoute[6..][1..]) == Some([]);
    assert [Child(0)] + [] == [Child(0)];
    assert TakeHop(SampleWrapper, Select(ByClass("chip"))) == Some([Child(0)]);
    assert Follow(SampleWrapper, EntryRoute[6..]) == Some([Child(0)]);
    assert At(SampleChipsRoot, [Child(0)]) == Some(SampleWrapper);
    assert TakeHop(SampleChipsRoot, Select(ByClass("df-chips-wrapper"))) == Some([Child(0)]);
    assert [Child(0)] + [Child(0)] == [Child(0), Child(0)];
    assert Follow(SampleChipsRoot, EntryRoute[5..]) == Some([Child(0), Child(0)]);
    assert At(SampleChips, [Shadow]) == Some(SampleChipsRoot);
    assert [Shadow] + [Child(0), Child(0)] == [Shadow, Child(0), Child(0)];
    assert Follow(SampleChips, EntryRoute[4..]) == Some([Shadow, Child(0), Child(0)]);
    assert At(SampleStack, [Child(0)]) == Some(SampleChips);
    assert TakeHop(SampleStack, Select(ByTag("df-chips"))) == Some([Child(0)]);
    assert [Child(0)] + [Shadow, Child(0), Child(0)] == SampleDetour[3..];
  }

  lemma SampleHasNoNoneContainer()
    ensures QuerySelector(SampleUtteranceRoot, ByClass("none")) == None
  {
    assert QueryFrom(SampleChips, 0, ByClass("none")) == None;
    assert QueryFrom(SampleStack, 1, ByClass("none")) == None;
    assert QueryFrom(SampleStack, 0, ByClass("none")) == None;
    assert QueryFrom(SampleUtteranceRoot, 1, ByClass("none")) == None;
  }

  lemma SampleStackPart()
    ensures Follow(SampleUtteranceRoot, EntryRoute[2..]) == Some(SampleDetour[2..])
  {
    SampleChipsPart();
    SampleHasNoNoneContainer();
    assert EntryRoute[2..][0] == SelectPreferring(ByClass("none"), ByClass("message-stack"));
    assert EntryRoute[2..][1..] == EntryRoute[3..];
    assert QuerySelector(SampleUtteranceRoot, ByClass("message-stack")) == Some([Child(0)]);
    assert At(SampleUtteranceRoot, [Child(0)]) == Some(SampleStack);
    assert [Child(0)] + SampleDetour[3..] == SampleDetour[2..];
  }

  lemma SampleEntryPart()
    ensures FindInEntryShadowRoot(SampleEntry, ByTag("button")) == Some(SampleDetour)
  {
    SampleStackPart();
    assert EntryRoute[1..][0] == EnterShadow && EntryRoute[1..][1..] == EntryRoute[2..];
    assert At(SampleUtterance, [Shadow]) == Some(SampleUtteranceRoot);
    assert [Shadow] + SampleDetour[2..] == SampleDetour[1..];
    assert Follow(SampleUtterance, EntryRoute[1..]) == Some(SampleDetour[1..]);
    assert QuerySelector(SampleEntry, ByTag("df-messenger-utterance")) == Some([Child(0)]);
    assert At(SampleEntry, [Child(0)]) == Some(SampleUtterance);
    assert [Child(0)] + SampleDetour[1..] == SampleDetour;
  }

  lemma SampleDetourReachesChip()
    ensures At(SampleContent, [Child(0)] + SampleDetour) == Some(SampleChip)
  {
  }

  /** Searching the sample for a `<button>` returns its `.chip`, which is not
      a button: the detour answers for a selector it never looked at. */
  lemma DetourCanReturnNonMatchingElement()
    ensures FindElementInAnyShadowRoot(Some(SampleContent), ByTag("button")) == Some([Child(0)] + SampleDetour)
    ensures At(SampleContent, [Child(0)] + SampleDetour) == Some(SampleChip)
    ensures !Matches(SampleChip, ByTag("button"))
  {
    var button := ByTag("button");
    // The light DOM of `.content` holds no button: the utterance's shadow
    // root is not entered.
    assert QueryFrom(SampleUtterance, 0, button) == None;
    assert QueryFrom(SampleEntry, 1, button) == None;
    assert QueryFrom(SampleEntry, 0, button) == None;
    assert QueryFrom(SampleContent, 1, button) == None;
    assert QuerySelector(SampleContent, button) == None;
    SampleEntryPart();
    assert FindInChildShadowRoot(SampleEntry, button) == Some(SampleDetour);
    assert FindInChildren(SampleContent, 1, button) == None;
    assert FindInChildren(SampleContent, 0, button) == Some([Child(0)] + SampleDetour);
    SampleDetourReachesChip();
  }

  // A `.chip` in the shadow root of a host that is a grandchild of `.content`.
  const DeepChip := Node("div", {"chip"}, [], None, "")
  const DeepHostRoot := Node("#shadow-root", {}, [DeepChip], None, "")
  const DeepHost := Node("x-host", {}, [], Some(DeepHostRoot), "")
  const DeepWrapper := Node("div", {}, [DeepHost], None, "")
  const DeepContent := Node("div", {"content"}, [DeepWrapper], None, "")

  /** The search does not find a `.chip` behind a shadow host that is not a
      direct child of the root, although there is one. */
  lemma DeepHostIsNotSearched()
    ensures At(DeepContent, [Child(0), Child(0), Shadow, Child(0)]) == Some(DeepChip)
    ensures "chip" in DeepChip.classes
    ensures FindElementInAnyShadowRoot(Some(DeepContent), ByClass("chip")).None?
  {
    var chip := ByClass("chip");
    assert QueryFrom(DeepHost, 0, chip) == None;
    assert QueryFrom(DeepWrapper, 1, chip) == None;
    assert QueryFrom(DeepWrapper, 0, chip) == None;
    assert QueryFrom(DeepContent, 1, chip) == None;
    assert QuerySelector(DeepContent, chip) == None;
    assert FindInChildShadowRoot(DeepWrapper, chip) == None;
    assert FindInChildren(DeepContent, 1, chip) == None;
  }
}
