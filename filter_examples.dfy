/** The cleaner on sample inputs: long newline and
    space runs, a disallowed control character, a CJK ideograph.  Each
    sample is passed in as a parameter equal to the literal, which keeps
    the verifier from unfolding the recursive definitions on it. */
module FilterExamples {
  import opened TextFilter

  /** The newline collapse shortens a run of four newlines to two. */
  lemma NewlineCollapseExample(s: string)
    requires s == "a\n\n\n\nb"
    ensures CollapseRuns(s, '\n', 2) == "a\n\nb"
  {
    var t := s[1..];
    assert t == Rep('\n', 4) + "b";
    LeadRunOfRep('\n', 4, "b");
    assert t[4..] == "b";
    CollapseAbsent(t[4..], '\n', 2);
    var rest := CollapseRuns(t, '\n', 2);
    assert Rep('\n', 2) == "\n\n";
    assert rest == "\n\nb";
  }

  /** Four newlines between two letters become two. */
  lemma NewlineRunExample(s: string)
    requires s == "a\n\n\n\nb"
    ensures FilterGarbage(s) == "a\n\nb"
  {
    FilterGarbageOfValid(s);
    NewlineCollapseExample(s);
    NoSpaceExample(CollapseRuns(s, '\n', 2));
  }

  /** The space collapse leaves a text without spaces alone. */
  lemma NoSpaceExample(t: string)
    requires t == "a\n\nb"
    ensures CollapseRuns(t, ' ', 1) == t
  {
    CollapseAbsent(t, ' ', 1);
  }

  /** The space collapse shortens a run of four spaces to one. */
  lemma SpaceCollapseExample(s: string)
    requires s == "a    b"
    ensures CollapseRuns(s, ' ', 1) == "a b"
  {
    var t := s[1..];
    assert t == Rep(' ', 4) + "b";
    LeadRunOfRep(' ', 4, "b");
    assert t[4..] == "b";
    CollapseAbsent(t[4..], ' ', 1);
    var rest := CollapseRuns(t, ' ', 1);
    assert Rep(' ', 1) == " ";
    assert rest == " b";
  }

  /** Four spaces between two letters become one. */
  lemma SpaceRunExample(s: string)
    requires s == "a    b"
    ensures FilterGarbage(s) == "a b"
  {
    FilterGarbageOfValid(s);
    CollapseAbsent(s, '\n', 2);
    SpaceCollapseExample(s);
  }

  /** The allow-list step drops U+0007 between two letters. */
  lemma BellSelectExample(s: string)
    requires s == "a\U{0007}b"
    ensures Select(s, IsValidChar) == "ab"
  {
    var t := s[1..];
    assert !IsValidChar(t[0]) && t[1..] == "b";
    assert Select(t, IsValidChar) == Select("b", IsValidChar);
    SelectAll("b", IsValidChar);
    assert Select(s, IsValidChar) == "a" + Select(t, IsValidChar);
  }

  /** U+0007 (BELL) is not on the allow-list and is removed. */
  lemma BellExample(s: string)
    requires s == "a\U{0007}b"
    ensures FilterGarbage(s) == "ab"
  {
    BellSelectExample(s);
    var v := Select(s, IsValidChar);
    CollapseAbsent(v, '\n', 2);
    CollapseAbsent(v, ' ', 1);
  }

  /** A CJK ideograph (U+4E2D) is kept. */
  lemma ChineseExample(s: string)
    requires s == "\U{4E2D}"
    ensures FilterGarbage(s) == s
  {
    FilterGarbageOfValid(s);
    CollapseAbsent(s, '\n', 2);
    CollapseAbsent(s, ' ', 1);
  }
}
