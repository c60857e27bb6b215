/** The player avatar of components/ui/PlayerAvatar.tsx: an empty name
    shows a blank placeholder disc, any other name a badge with at most two
    initials, taken from the first characters of the space-separated words
    and upper-cased (ASCII letters only). */
module Avatar {
  import opened Common
  import opened JsText

  /** What the component renders. */
  datatype AvatarView = Placeholder | Badge(initials: string)

  /** `w[0]` as the join sees it: the first character, or `''` for the
      `undefined` of an empty word. */
  function FirstChar(w: string): string {
    if w == "" then "" else [w[0]]
  }

  /** `words.map(n => n[0]).join('')`. */
  function FirstChars(words: seq<string>): (r: string)
    ensures |r| <= |words|
    decreases |words|
  {
    if |words| == 0 then "" else FirstChar(words[0]) + FirstChars(words[1..])
  }

  /** The avatar for `name`: the placeholder for the empty name, otherwise
      the badge with `FirstChars(name.split(' ')).substring(0, 2).toUpperCase()`. */
  function AvatarFor(name: string): (r: AvatarView)
    ensures r.Placeholder? <==> name == ""
    ensures r.Badge? ==> |r.initials| <= 2
    ensures r.Badge? ==> forall i :: 0 <= i < |r.initials| ==> !IsLowerAscii(r.initials[i])
  {
    if name == "" then Placeholder
    else Badge(ToUpper(Substring(FirstChars(Split(name, ' ')), 0, 2)))
  }

  /** Reference definition by a scan of the characters: a character starts a
      word when it is not a space and it opens the text or follows a space
      (`atStart` says whether the previous character was a space). */
  function WordStarts(s: string, atStart: bool): string
    decreases |s|
  {
    if |s| == 0 then ""
    else if s[0] == ' ' then WordStarts(s[1..], true)
    else (if atStart then [s[0]] else "") + WordStarts(s[1..], false)
  }

  predicate NonEmpty(w: string) {
    w != ""
  }

  /** Split-map-join picks exactly the word-starting characters, in order;
      the pieces after the first one start right after a space. */
  lemma {:induction false} FirstCharsAreWordStarts(s: string)
    ensures FirstChars(Split(s, ' ')) == WordStarts(s, true)
    ensures FirstChars(Split(s, ' ')[1..]) == WordStarts(s, false)
    decreases |s|
  {
    if |s| > 0 {
      FirstCharsAreWordStarts(s[1..]);
      var rest := Split(s[1..], ' ');
      if s[0] == ' ' {
        assert Split(s, ' ') == [""] + rest;
        assert (Split(s, ' '))[1..] == rest;
      } else {
        var parts := Split(s, ' ');
        assert parts == [[s[0]] + rest[0]] + rest[1..];
        assert parts[1..] == rest[1..];
        assert FirstChar(parts[0]) == [s[0]];
      }
    }
  }

  /** The badge holds the upper-cased first two word-starting characters. */
  lemma BadgeIsWordStarts(name: string)
    requires name != ""
    ensures var starts := WordStarts(name, true);
            AvatarFor(name) == Badge(ToUpper(starts[..if |starts| < 2 then |starts| else 2]))
  {
    FirstCharsAreWordStarts(name);
  }

  /** Empty pieces, from leading, trailing or repeated spaces, contribute
      nothing: only the non-empty words count. */
  lemma {:induction false} EmptyWordsContributeNothing(words: seq<string>)
    ensures FirstChars(Keep(words, NonEmpty)) == FirstChars(words)
    decreases |words|
  {
    if |words| > 0 {
      EmptyWordsContributeNothing(words[1..]);
      var rest := Keep(words[1..], NonEmpty);
      if NonEmpty(words[0]) {
        assert Keep(words, NonEmpty) == [words[0]] + rest;
        assert ([words[0]] + rest)[1..] == rest;
      } else {
        assert Keep(words, NonEmpty) == rest;
      }
    }
  }

  /** Each non-empty word gives one character, each empty one none. */
  lemma {:induction false} FirstCharsCount(words: seq<string>)
    ensures |FirstChars(words)| == |Keep(words, NonEmpty)|
    decreases |words|
  {
    if |words| > 0 {
      FirstCharsCount(words[1..]);
    }
  }

  /** The badge shows two initials when the name has two or more words, one
      for a single word, none for a name of spaces only. */
  lemma BadgeLength(name: string)
    requires name != ""
    ensures var words := Keep(Split(name, ' '), NonEmpty);
            |AvatarFor(name).initials| == if |words| < 2 then |words| else 2
  {
    FirstCharsCount(Split(name, ' '));
  }

  /** Leading spaces change nothing. */
  lemma LeadingSpaceIgnored(name: string)
    requires name != ""
    ensures AvatarFor([' '] + name) == AvatarFor(name)
  {
    FirstCharsAreWordStarts([' '] + name);
    FirstCharsAreWordStarts(name);
    assert ([' '] + name)[1..] == name;
  }

  /** A single word gives its upper-cased first character alone. */
  lemma SingleWord(name: string)
    requires name != "" && ' ' !in name
    ensures AvatarFor(name) == Badge([UpperChar(name[0])])
  {
    SplitUnique(name, ' ', [name]);
    assert FirstChars([name]) == [name[0]];
  }

  /** Two words give the upper-cased first character of each, in order. */
  lemma TwoWords(first: string, last: string)
    requires first != "" && last != "" && ' ' !in first && ' ' !in last
    ensures AvatarFor(first + " " + last) == Badge([UpperChar(first[0]), UpperChar(last[0])])
  {
    SplitTwo(first, last, ' ');
    assert first + " " + last == first + [' '] + last;
    assert [first, last][1..] == [last];
    assert FirstChars([first, last]) == [first[0], last[0]];
  }
}
