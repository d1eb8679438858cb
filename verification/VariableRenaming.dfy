/**
 * The program's own edit: decompiled variables, words of the form `var` and digits, get the names of a table. What
 * this edit makes of ranges nested in each other.
 */
module VariableRenaming {
  import opened Sorting
  import opened Splicing
  import opened NestedRewrites

  type Renames = map<string, string>

  predicate WordChar(c: char) {
    'a' <= c <= 'z' || 'A' <= c <= 'Z' || '0' <= c <= '9' || c == '_'
  }

  /** The length of the word the text begins with. */
  function WordLength(text: string): (n: nat)
    ensures n <= |text|
  {
    if text == [] || !WordChar(text[0]) then 0 else 1 + WordLength(text[1..])
  }

  predicate IsVariable(word: string) {
    |word| > 3 && word[..3] == "var" && forall i :: 3 <= i < |word| ==> '0' <= word[i] <= '9'
  }

  function NameOf(word: string, renames: Renames): string {
    if IsVariable(word) && word in renames then renames[word] else word
  }

  /** Each whole word that is a variable of the table gets its name there. */
  function Renamed(text: string, renames: Renames): string
    decreases |text|
  {
    if text == [] then []
    else if !WordChar(text[0]) then [text[0]] + Renamed(text[1..], renames)
    else NameOf(text[..WordLength(text)], renames) + Renamed(text[WordLength(text)..], renames)
  }

  function Renaming(renames: Renames): string -> string {
    (text: string) => Renamed(text, renames)
  }

  /** No word runs from the end of one text into the other. */
  predicate CutsNoWord(a: string, b: string) {
    a == [] || b == [] || !WordChar(a[|a| - 1]) || !WordChar(b[0])
  }

  lemma {:induction false} WordLengthAppend(a: string, b: string)
    requires CutsNoWord(a, b) && a != []
    ensures WordLength(a + b) == WordLength(a)
  {
    assert (a + b)[1..] == a[1..] + b;
    if |a| > 1 {
      if WordChar(a[0]) {
        WordLengthAppend(a[1..], b);
      }
    } else {
      assert a[1..] + b == b;
    }
  }

  /** Text is renamed piece by piece, as long as no word is cut. */
  lemma {:induction false} RenamedAppend(a: string, b: string, renames: Renames)
    requires CutsNoWord(a, b)
    ensures Renamed(a + b, renames) == Renamed(a, renames) + Renamed(b, renames)
    decreases |a|
  {
    hide Renamed, NameOf, WordLength;
    RenamedFirst(a, renames);
    RenamedFirst(a + b, renames);
    if a == [] {
      assert a + b == b;
    } else {
      var n := FirstLength(a);
      WordLengthAppend(a, b);
      assert (a + b)[n..] == a[n..] + b && (a + b)[..n] == a[..n];
      RenamedAppend(a[n..], b, renames);
    }
  }

  /** The length of the first word, or of the one character before it. */
  function FirstLength(text: string): (n: nat)
    requires text != []
    ensures 0 < n <= |text|
  {
    if WordChar(text[0]) then WordLength(text) else 1
  }

  lemma RenamedFirst(text: string, renames: Renames)
    ensures text == [] ==> Renamed(text, renames) == []
    ensures text != [] ==>
              var n := FirstLength(text);
              Renamed(text, renames)
              == (if WordChar(text[0]) then NameOf(text[..n], renames) else text[..n]) + Renamed(text[n..], renames)
  {
    hide NameOf;
  }

  lemma {:induction false} OtherTextIsKept(text: string, renames: Renames)
    requires forall c :: c in text ==> !WordChar(c)
    ensures Renamed(text, renames) == text
  {
    if text != [] {
      assert text[0] in text;
      OtherTextIsKept(text[1..], renames);
    }
  }

  lemma {:induction false} WordIsWhole(word: string)
    requires forall c :: c in word ==> WordChar(c)
    ensures WordLength(word) == |word|
  {
    if word != [] {
      assert word[0] in word;
      WordIsWhole(word[1..]);
    }
  }

  lemma WholeWord(word: string, renames: Renames)
    requires word != [] && forall c :: c in word ==> WordChar(c)
    ensures Renamed(word, renames) == NameOf(word, renames)
  {
    WordIsWhole(word);
    assert word[..|word|] == word && word[|word|..] == [];
    hide NameOf;
    assert Renamed([], renames) == [];
  }

  /** `var` and at least one digit. */
  ghost predicate IsNumberedVar(word: string) {
    exists digits :: digits != [] && (forall d :: d in digits ==> '0' <= d <= '9') && word == "var" + digits
  }

  lemma IsVariableIff(word: string)
    ensures IsVariable(word) <==> IsNumberedVar(word)
  {
    if IsVariable(word) {
      assert word == "var" + word[3..] && forall d :: d in word[3..] ==> '0' <= d <= '9';
    }
    if IsNumberedVar(word) {
      var digits :| digits != [] && (forall d :: d in digits ==> '0' <= d <= '9') && word == "var" + digits;
      assert forall i :: 3 <= i < |word| ==> word[i] == digits[i - 3] && digits[i - 3] in digits;
      assert word[..3] == "var";
    }
  }

  /**
   * Between texts that do not continue it, a whole word becomes what the table has for it if it is a numbered `var`,
   * and stays as it is otherwise. Text without words is kept.
   */
  lemma WholeWordIsRenamed(before: string, word: string, after: string, renames: Renames)
    requires word != []
    requires forall c :: c in word ==> 'a' <= c <= 'z' || 'A' <= c <= 'Z' || '0' <= c <= '9' || c == '_'
    requires before == [] || !WordChar(before[|before| - 1])
    requires after == [] || !WordChar(after[0])
    ensures var name := if IsNumberedVar(word) && word in renames then renames[word] else word;
            Renamed(before + word + after, renames) == Renamed(before, renames) + name + Renamed(after, renames)
    ensures (forall c :: c in before ==> !WordChar(c)) ==> Renamed(before, renames) == before
  {
    WholeWord(word, renames);
    IsVariableIff(word);
    assert word[0] in word;
    hide Renamed, IsNumberedVar;
    RenamedAppend(before, word, renames);
    RenamedAppend(before + word, after, renames);
    if forall c :: c in before ==> !WordChar(c) {
      OtherTextIsKept(before, renames);
    }
  }

  // ---------------------------------------------------------------------------------------------
  // Methods nested in each other
  // ---------------------------------------------------------------------------------------------

  ghost predicate IsRenaming(edit: string -> string) {
    exists renames :: edit == Renaming(renames)
  }

  /** The text on the wrong side of a stale end: cut off a segment that has grown, or reached behind one that shrank. */
  function Misplaced(segment: string, after: string, cut: nat): string {
    if |segment| >= cut then segment[cut..] else after[..Overrun(segment, after, cut)]
  }

  predicate EndsBetweenWords(segment: string, after: string, cut: nat) {
    if |segment| >= cut then CutsNoWord(segment[..cut], segment[cut..])
    else CutsNoWord(segment, after[..Overrun(segment, after, cut)])
  }

  /** A stale end between words does no harm exactly if nothing in the misplaced text is to be renamed. */
  lemma StaleRenamingIff(edit: string -> string, segment: string, after: string, cut: nat)
    requires IsRenaming(edit) && EndsBetweenWords(segment, after, cut)
    ensures StaleEndIsHarmless(edit, segment, after, cut) <==>
              edit(Misplaced(segment, after, cut)) == Misplaced(segment, after, cut)
  {
    var renames :| edit == Renaming(renames);
    hide Renamed, CutsNoWord;
    var misplaced := Misplaced(segment, after, cut);
    var kept := if |segment| >= cut then segment[..cut] else segment;
    if |segment| >= cut {
      assert segment == kept + misplaced;
    }
    RenamedAppend(kept, misplaced, renames);
    SameEnd(Renamed(kept, renames), Renamed(misplaced, renames), misplaced);
  }

  lemma SameEnd(before: string, a: string, b: string)
    ensures before + a == before + b <==> a == b
  {
    SameMiddle(before, a, b, []);
    assert before + a + [] == before + a && before + b + [] == before + b;
  }

  /** Every edit renames variables, and every stale end lies between words. */
  ghost predicate RenamesBetweenWords(original: string, f: Forest, from: nat, upto: nat, tail: string)
    requires Fits(f, from, upto) && upto <= |original|
  {
    match f
    case Nil => true
    case Node(r, inside, behind) =>
      var after := Edited(original, behind, r.end, upto) + tail;
      && RenamesBetweenWords(original, behind, r.end, upto, tail)
      && RenamesBetweenWords(original, inside, r.start, r.end, after)
      && IsRenaming(r.edit) && EndsBetweenWords(Edited(original, inside, r.start, r.end), after, r.end - r.start)
  }

  /** No variable of its own stands on the wrong side of a range's stale end. */
  ghost predicate NothingMisplaced(original: string, f: Forest, from: nat, upto: nat, tail: string)
    requires Fits(f, from, upto) && upto <= |original|
  {
    match f
    case Nil => true
    case Node(r, inside, behind) =>
      var after := Edited(original, behind, r.end, upto) + tail;
      var misplaced := Misplaced(Edited(original, inside, r.start, r.end), after, r.end - r.start);
      && NothingMisplaced(original, behind, r.end, upto, tail)
      && NothingMisplaced(original, inside, r.start, r.end, after)
      && r.edit(misplaced) == misplaced
  }

  /**
   * Methods nested to any depth, with the program's renaming and stale ends between words: every splice is exact
   * exactly if no range has a variable of its own on the wrong side of its stale end.
   */
  lemma {:induction false} NestedRenamingIff(original: string, f: Forest, from: nat, upto: nat, tail: string)
    requires Fits(f, from, upto) && upto <= |original| && RenamesBetweenWords(original, f, from, upto, tail)
    ensures EachIsExact(original, f, from, upto, tail) <==> NothingMisplaced(original, f, from, upto, tail)
  {
    EachIsExactIff(original, f, from, upto, tail);
    hide EachIsExact;
    HarmlessIffNothingMisplaced(original, f, from, upto, tail);
  }

  lemma {:induction false} HarmlessIffNothingMisplaced(original: string, f: Forest, from: nat, upto: nat, tail: string)
    requires Fits(f, from, upto) && upto <= |original| && RenamesBetweenWords(original, f, from, upto, tail)
    ensures Harmless(original, f, from, upto, tail) <==> NothingMisplaced(original, f, from, upto, tail)
  {
    hide Edited, Misplaced, EndsBetweenWords, StaleEndIsHarmless, IsRenaming;
    if f.Node? {
      var r, after := f.range, Edited(original, f.behind, f.range.end, upto) + tail;
      HarmlessIffNothingMisplaced(original, f.behind, r.end, upto, tail);
      HarmlessIffNothingMisplaced(original, f.inside, r.start, r.end, after);
      StaleRenamingIff(r.edit, Edited(original, f.inside, r.start, r.end), after, r.end - r.start);
    }
  }

  // ---------------------------------------------------------------------------------------------
  // A nested pair the program gets wrong
  // ---------------------------------------------------------------------------------------------

  /** One method body in another. */
  const SOURCE := "run(int var1){get(int var2){}var1}"
  const OUTER := Rewrite(0, 34, Renaming(map["var1" := "x"]))
  const INNER := Rewrite(14, 29, Renaming(map["var2" := "position"]))

  const EDITED := "run(int var1){get(int position){}var1}"

  /**
   * The inner variable's longer name moves the outer end by four characters, into the last use of the outer variable:
   * the cut-off `ar1}` is left as it is.
   */
  lemma NestedRenamingFails()
    ensures InText(SOURCE, OUTER) && Nested(OUTER, INNER)
    ensures !NestedIsExact(SOURCE, OUTER, INNER)
  {
    hide Renamed, Segment, NestedIsExact, StaleEndIsHarmless;
    SegmentOfSource();
    NestedIsExactIff(SOURCE, OUTER, INNER);
    assert SOURCE[OUTER.end..] == [];
    LastUseIsCut();
  }

  lemma SegmentOfSource()
    ensures Segment(SOURCE, OUTER, INNER) == EDITED
  {
    hide Renamed;
    SourceParts();
    EditedParts();
    hide SOURCE, EDITED;
    OneVariable("get(int ", "var2", "){}", map["var2" := "position"]);
  }

  lemma SourceParts()
    ensures SOURCE[0..14] == "run(int var1){" && SOURCE[29..34] == "var1}"
    ensures SOURCE[14..29] == "get(int " + "var2" + "){}"
  {
    assert "get(int " + "var2" + "){}" == "get(int var2){}";
  }

  lemma EditedParts()
    ensures "run(int var1){" + ("get(int " + "position" + "){}") + "var1}" == EDITED
  {
  }

  lemma LastUseIsCut()
    ensures !StaleEndIsHarmless(OUTER.edit, EDITED, [], 34)
  {
    hide Renamed;
    var renames, head := map["var1" := "x"], EDITED[..33];
    assert EDITED == head + "var1}" && EDITED[34..] == "ar1}";
    OneVariable("", "var1", "}", renames);
    assert "" + "var1" + "}" == "var1}" && "" + "x" + "}" == "x}";
    RenamedAppend(head, "var1}", renames);
    EndsDiffer(Renamed(head, renames), Renamed(EDITED[..34], renames));
  }

  lemma EndsDiffer(a: string, b: string)
    ensures a + "x}" != b + "ar1}"
  {
    var right, wrong := a + "x}", b + "ar1}";
    assert right[|right| - 2] == 'x' && wrong[|wrong| - 2] == '1';
  }

  /** A variable between texts that hold none, as no word of theirs has a `v`. */
  lemma OneVariable(before: string, variable: string, after: string, renames: Renames)
    requires variable in renames && IsVariable(variable) && CutsNoWord(before, variable) && CutsNoWord(variable, after)
    requires 'v' !in before && 'v' !in after
    ensures Renamed(before + variable + after, renames) == before + renames[variable] + after
  {
    hide Renamed;
    KeepsOthers(before, renames);
    KeepsOthers(after, renames);
    WholeWord(variable, renames);
    RenamedAppend(before, variable, renames);
    RenamedAppend(before + variable, after, renames);
  }

  lemma {:induction false} KeepsOthers(text: string, renames: Renames)
    requires 'v' !in text
    ensures Renamed(text, renames) == text
    decreases |text|
  {
    hide Renamed, FirstLength;
    RenamedFirst(text, renames);
    if text != [] {
      var n := FirstLength(text);
      KeepsOthers(text[n..], renames);
      assert text[..n] + text[n..] == text;
      assert text[..n][0] == text[0] && !IsVariable(text[..n]);
    }
  }
}
