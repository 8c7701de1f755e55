/** How `handle_interaction` turns the assistant's raw reply into the text to
    speak and the emotion to express. The remote call that produces the reply is
    not modelled: the reply arrives as a parameter. */
module Assistant {
  import opened Text
  import opened Emotions

  /** What the reply resolves to: the text to speak and the emotion to express. */
  datatype Reply = Reply(text: string, emotion: Emotion)

  /** The marker whose last occurrence separates spoken text from the tag. */
  const Separator: string := " ["

  /** Characters `strip("] ")` removes from both ends of the tag. */
  const TagJunk: set<char> := {']', ' '}

  /** The tag as the dictionary lookup sees it: stripped of `]` and spaces, then
      lower-cased. */
  function CleanTag(tagPart: string): (key: string)
    ensures forall k :: 0 <= k < |key| ==> !('A' <= key[k] <= 'Z')
    ensures Strip(tagPart, TagJunk) == [] ==> key == []
  {
    LowerHasNoCapitals(Strip(tagPart, TagJunk));
    Lower(Strip(tagPart, TagJunk))
  }

  /** The emotion a tag resolves to: the emotion whose key the cleaned tag is,
      and `neutral` when it is no key. */
  function ResolveTag(tagPart: string): (e: Emotion)
    ensures Name(e) == CleanTag(tagPart) || (e == Neutral && Lookup(CleanTag(tagPart)).None?)
    ensures Lookup(CleanTag(tagPart)).Some? ==> e == Lookup(CleanTag(tagPart)).value
  {
    match Lookup(CleanTag(tagPart))
    case Some(e) => e
    case None => Neutral
  }

  /** The reply parsing of `handle_interaction`: split at the last " [", strip
      the text, clean the tag and fall back to `neutral`. */
  function ParseReply(raw: string): (r: Reply)
    ensures !Contains(raw, Separator) ==> r == Reply(raw, Neutral)
  {
    match FindLast(raw, Separator)
    case None => Reply(raw, Neutral)
    case Some(i) => SplitAt(raw, i)
  }

  /** `i` is where `raw` holds its last " [". */
  ghost predicate IsLastSeparator(raw: string, i: int) {
    OccursAt(raw, Separator, i) && forall j :: OccursAt(raw, Separator, j) ==> j <= i
  }

  /** The reply when the separator sits at `i`: the stripped text before it and
      the tag after it. */
  function SplitAt(raw: string, i: nat): (r: Reply)
    requires i + 2 <= |raw|
    ensures Trimmed(r.text) && |r.text| <= i
  {
    Reply(Strip(raw[..i], Whitespace), ResolveTag(raw[i + 2..]))
  }

  /** Text with no whitespace at either end, as the assistant's sentences are. */
  predicate Trimmed(text: string) {
    text != [] ==> text[0] !in Whitespace && text[|text| - 1] !in Whitespace
  }

  /** With a separator, the reply is split at its last occurrence. */
  lemma ParseAtLast(raw: string, i: int)
    requires IsLastSeparator(raw, i)
    ensures i + 2 <= |raw| && ParseReply(raw) == SplitAt(raw, i)
  {
    LastSeparatorUnique(raw, i, FindLast(raw, Separator).value);
  }

  /** At most one position is the last separator. */
  lemma LastSeparatorUnique(raw: string, i: int, j: int)
    requires IsLastSeparator(raw, i) && IsLastSeparator(raw, j)
    ensures i == j
  {
  }

  /** Whatever the reply, the resolved emotion is one of the nine keys, and it
      is `neutral` unless the reply carries a separator and a known tag. */
  lemma {:induction false} EmotionIsKnown(raw: string)
    ensures Lookup(Name(ParseReply(raw).emotion)) == Some(ParseReply(raw).emotion)
    ensures ParseReply(raw).emotion != Neutral ==>
      exists i :: IsLastSeparator(raw, i) && Lookup(CleanTag(raw[i + 2..])).Some?
  {
    LookupName(ParseReply(raw).emotion);
    var r := ParseReply(raw);
    if r.emotion != Neutral {
      var i := FindLast(raw, Separator).value;
      ParseAtLast(raw, i);
      assert Lookup(CleanTag(raw[i + 2..])).Some?;
    }
  }

  /** In text, " [", tag, "]" the last " [" is the one after the text, as long
      as the tag holds no " [" of its own. */
  lemma {:induction false} TaggedSeparator(text: string, tag: string)
    requires !Contains(tag, Separator)
    ensures FindLast(text + Separator + tag + "]", Separator) == Some(|text|)
  {
    var prefix, tagPart := text + Separator, tag + "]";
    var raw := prefix + tagPart;
    assert raw == text + Separator + tag + "]";
    var i := |text|;
    assert OccursAt(raw, Separator, i) by {
      assert raw[i..i + 2] == Separator;
    }
    forall j | i < j ensures !OccursAt(raw, Separator, j) {
      if j == i + 1 {
        assert raw[j] == '[';
      } else {
        var m := j - |prefix|;
        OccursRight(prefix, tagPart, Separator, j);
        if m + 2 <= |tag| {
          assert tagPart[m..m + 2] == tag[m..m + 2];
          assert 0 <= m <= |tag|;
          assert !OccursAt(tag, Separator, m);
        } else if m + 2 == |tagPart| {
          assert tagPart[m + 1] == ']';
        }
      }
    }
  }

  /** A reply the assistant composes as text, " [", tag, "]" parses back to the
      text and the tag's emotion, as long as the text has no surrounding
      whitespace and the tag holds no " [" of its own. */
  lemma {:induction false} ParseTagged(text: string, tag: string)
    requires Trimmed(text)
    requires !Contains(tag, Separator)
    ensures ParseReply(text + Separator + tag + "]") == Reply(text, ResolveTag(tag + "]"))
  {
    var raw := text + Separator + tag + "]";
    TaggedSeparator(text, tag);
    ParseAtLast(raw, |text|);
    assert raw[..|text|] == text;
    assert raw[|text| + 2..] == tag + "]";
    StripKeeps(text, Whitespace);
  }

  /** An emotion's key followed by "]" cleans back to the key. */
  lemma CleanName(e: Emotion)
    ensures CleanTag(Name(e) + "]") == Name(e)
  {
    StripName(e);
    LowerName(e);
  }

  lemma StripName(e: Emotion)
    ensures Strip(Name(e) + "]", TagJunk) == Name(e)
  {
    StripPadded([], Name(e), "]", TagJunk);
    assert [] + Name(e) + "]" == Name(e) + "]";
  }

  lemma LowerName(e: Emotion)
    ensures Lower(Name(e)) == Name(e)
  {
    LowerOfLower(Name(e));
  }

  /** A known emotion's key as the tag resolves to that emotion. */
  lemma ResolveName(e: Emotion)
    ensures ResolveTag(Name(e) + "]") == e
  {
    CleanName(e);
    LookupName(e);
  }

  /** The round trip the assistant is prompted for: text " [" emotion "]" parses
      back to the same text and emotion. */
  lemma {:induction false} ParseComposed(text: string, e: Emotion)
    requires Trimmed(text)
    ensures ParseReply(text + Separator + Name(e) + "]") == Reply(text, e)
  {
    AbsentCharNotContained(Name(e), Separator, '[');
    ParseTagged(text, Name(e));
    ResolveName(e);
  }

  /** A reply with no " [" at all is spoken whole and resolves to `neutral`. */
  lemma NoSeparatorSpokenWhole(raw: string)
    requires '[' !in raw
    ensures ParseReply(raw) == Reply(raw, Neutral)
  {
    AbsentCharNotContained(raw, Separator, '[');
  }

  /** An unknown tag falls back to `neutral`, yet the spoken text is still the
      part before the separator, not the whole reply. */
  lemma {:induction false} UnknownTagStillSplits(text: string, tag: string)
    requires Trimmed(text)
    requires !Contains(tag, Separator)
    requires Lookup(CleanTag(tag + "]")).None?
    ensures ParseReply(text + Separator + tag + "]") == Reply(text, Neutral)
    ensures ParseReply(text + Separator + tag + "]").text != text + Separator + tag + "]"
  {
    ParseTagged(text, tag);
  }

  /** "I am fine. [happy]" gives ("I am fine.", happy). */
  lemma TaggedExample(raw: string)
    requires raw == "I am fine. [happy]"
    ensures ParseReply(raw) == Reply("I am fine.", Happy)
  {
    assert raw == "I am fine." + Separator + Name(Happy) + "]";
    ParseComposed("I am fine.", Happy);
  }

  /** "I am fine." has no tag: it is spoken as it is, with `neutral`. */
  lemma UntaggedExample(raw: string)
    requires raw == "I am fine."
    ensures ParseReply(raw) == Reply(raw, Neutral)
  {
    NoSeparatorSpokenWhole(raw);
  }

  /** "Ok [xyz]" carries an unknown tag: ("Ok", neutral). */
  lemma UnknownTagExample(raw: string)
    requires raw == "Ok [xyz]"
    ensures ParseReply(raw) == Reply("Ok", Neutral)
  {
    UnknownTagExampleText(raw);
    AbsentCharNotContained("xyz", Separator, '[');
    UnknownCleanTag();
    UnknownTagStillSplits("Ok", "xyz");
  }

  /** The example reply, taken apart (a lemma of its own, which keeps the
      solver's work on the literal small). */
  lemma UnknownTagExampleText(raw: string)
    requires raw == "Ok [xyz]"
    ensures raw == "Ok" + Separator + "xyz" + "]"
  {
  }

  lemma UnknownCleanTag()
    ensures Lookup(CleanTag("xyz" + "]")).None?
  {
    StripUnknownTag();
    LowerUnknownTag();
    assert CleanTag("xyz" + "]") == "xyz";
  }

  lemma LowerUnknownTag()
    ensures Lower("xyz") == "xyz"
  {
    LowerOfLower("xyz");
  }

  lemma StripUnknownTag()
    ensures Strip("xyz" + "]", TagJunk) == "xyz"
  {
    StripPadded([], "xyz", "]", TagJunk);
    assert [] + "xyz" + "]" == "xyz" + "]";
  }

  /** A padded, upper-case tag still resolves: "Wow [ EXCITED ]" gives
      ("Wow", excited). */
  lemma UpperCaseTagExample(raw: string)
    requires raw == "Wow [ EXCITED ]"
    ensures ParseReply(raw) == Reply("Wow", Excited)
  {
    assert raw == "Wow" + Separator + " EXCITED " + "]";
    UpperCaseTagParsed("Wow", " EXCITED ");
    UpperCaseCleanTag();
  }

  lemma UpperCaseTagParsed(text: string, tag: string)
    requires text == "Wow" && tag == " EXCITED "
    ensures ParseReply(text + Separator + tag + "]") == Reply(text, ResolveTag(tag + "]"))
  {
    AbsentCharNotContained(tag, Separator, '[');
    ParseTagged(text, tag);
  }

  lemma UpperCaseCleanTag()
    ensures ResolveTag(" EXCITED " + "]") == Excited
  {
    StripUpperCaseTag();
    LowerUpperCaseTag();
  }

  lemma StripUpperCaseTag()
    ensures Strip(" EXCITED " + "]", TagJunk) == "EXCITED"
  {
    StripPadded(" ", "EXCITED", " ]", TagJunk);
    assert " " + "EXCITED" + " ]" == " EXCITED " + "]";
  }

  lemma LowerUpperCaseTag()
    ensures Lower("EXCITED") == "excited"
  {
    LowerFront();
    LowerBack();
    LowerAppend("EXC", "ITED");
    assert "EXC" + "ITED" == "EXCITED";
    assert "exc" + "ited" == "excited";
  }

  // The two halves of "EXCITED", lower-cased one character at a time; each
  // half is a lemma of its own, which keeps the solver's work on the literals
  // small.

  lemma LowerFront()
    ensures Lower("EXC") == "exc"
  {
    assert Lower("C") == "c";
    assert Lower("XC") == "xc";
  }

  lemma LowerBack()
    ensures Lower("ITED") == "ited"
  {
    assert Lower("D") == "d";
    assert Lower("ED") == "ed";
    assert Lower("TED") == "ted";
  }
}
