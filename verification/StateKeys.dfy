/** Which block states the joined keys tell apart: all that differ in name or in a property. */
module StateKeys {
  import opened Decimals
  import opened LiquidWorld
  import opened Outcomes
  import opened Sorting

  type Locale = (string, string) -> bool

  predicate PlainProperty(p: Property) {
    '=' !in p.0 && ',' !in p.0 && ',' !in p.1
  }

  /** Without the separators of the key in its parts, and with each property once. */
  ghost predicate PlainState(s: State) {
    && '[' !in s.name
    && (forall i :: 0 <= i < |Entries(s)| ==> PlainProperty(Entries(s)[i]))
    && forall i, j :: 0 <= i < j < |Entries(s)| ==> Entries(s)[i].0 != Entries(s)[j].0
  }

  ghost predicate HasProperty(s: State, name: string, value: string) {
    s.properties.Some? && (name, value) in s.properties.value
  }

  /** The same name, and the same properties with the same values. */
  ghost predicate SameState(s: State, t: State) {
    s.name == t.name && forall name, value :: HasProperty(s, name, value) <==> HasProperty(t, name, value)
  }

  /** The collation gives no two names of these states' properties the same place. */
  ghost predicate NamesApart(locale: Locale, s: State, t: State) {
    var both := Entries(s) + Entries(t);
    forall p, q :: p in both && q in both && locale(p.0, q.0) && locale(q.0, p.0) ==> p.0 == q.0
  }

  lemma Regrouped(a: string, b: string, c: string)
    ensures a + b + c == a + (b + c) && a + [] == a
  {
  }

  lemma JoinedSplits(s: seq<Property>)
    requires s != []
    ensures Joined(s) == s[0].0 + "=" + s[0].1 + if |s| == 1 then [] else "," + Joined(s[1..])
  {
    JoinedFirst(s);
    hide Joined;
    Regrouped(s[0].0 + "=" + s[0].1, ",", Joined(s[1..]));
  }

  lemma JoinedFirst(s: seq<Property>)
    requires s != []
    ensures Joined(s) == if |s| == 1 then s[0].0 + "=" + s[0].1 else s[0].0 + "=" + s[0].1 + "," + Joined(s[1..])
  {
  }

  /** Two equal values before a comma or the end, with what follows. */
  lemma SplitValue(v: string, w: string, x: string, y: string)
    requires ',' !in v && ',' !in w
    requires (x == [] || x[0] == ',') && (y == [] || y[0] == ',') && v + x == w + y
    ensures v == w && x == y
  {
    FirstComma(v, x);
    FirstComma(w, y);
    assert (v + x)[..|v|] == v && (w + y)[..|w|] == w;
    assert (v + x)[|v|..] == x && (w + y)[|w|..] == y;
  }

  lemma {:induction false} FirstComma(v: string, x: string)
    requires ',' !in v && (x == [] || x[0] == ',')
    ensures First(v + x, ',') == |v|
  {
    if v == [] {
      assert v + x == x;
    } else {
      assert (v + x)[1..] == v[1..] + x;
      FirstComma(v[1..], x);
    }
  }

  function Tail(s: seq<Property>): string
    requires s != []
  {
    if |s| == 1 then [] else "," + Joined(s[1..])
  }

  lemma {:induction false} JoinedIsInjective(s: seq<Property>, t: seq<Property>)
    requires s != [] && t != [] && Joined(s) == Joined(t)
    requires (forall p :: p in s ==> PlainProperty(p)) && forall p :: p in t ==> PlainProperty(p)
    ensures s == t
    decreases |s|
  {
    hide Joined;
    var p, q := s[0], t[0];
    JoinedSplits(s);
    JoinedSplits(t);
    assert PlainProperty(p) && PlainProperty(q);
    FirstSplits(p, q, Tail(s), Tail(t));
    if |s| > 1 && |t| > 1 {
      assert Tail(s)[1..] == Joined(s[1..]) && Tail(t)[1..] == Joined(t[1..]);
      JoinedIsInjective(s[1..], t[1..]);
      assert s == [p] + s[1..] && t == [q] + t[1..];
    } else {
      assert |s| == 1 && |t| == 1 && s == [p] && t == [q];
    }
  }

  lemma FirstSplits(p: Property, q: Property, x: string, y: string)
    requires PlainProperty(p) && PlainProperty(q)
    requires (x == [] || x[0] == ',') && (y == [] || y[0] == ',') && p.0 + "=" + p.1 + x == q.0 + "=" + q.1 + y
    ensures p == q && x == y
  {
    assert p.0 + "=" + p.1 + x == p.0 + ['='] + (p.1 + x) && q.0 + "=" + q.1 + y == q.0 + ['='] + (q.1 + y);
    SplitFirst('=', p.0, q.0, p.1 + x, q.1 + y);
    SplitValue(p.1, q.1, x, y);
  }

  /** The sorted properties and the name can be read off the key. */
  lemma KeyDetermines(locale: Locale, s: State, t: State)
    requires PlainState(s) && PlainState(t) && BlockStateKey(locale, s) == BlockStateKey(locale, t)
    ensures s.name == t.name && Sort(Entries(s), ByName(locale)) == Sort(Entries(t), ByName(locale))
  {
    var a, b := Sort(Entries(s), ByName(locale)), Sort(Entries(t), ByName(locale));
    SortKeepsMembers(Entries(s), ByName(locale));
    SortKeepsMembers(Entries(t), ByName(locale));
    hide Sort;
    BracketIff(s.name, a);
    BracketIff(t.name, b);
    if a != [] {
      KeySplits(s.name, a, t.name, b);
      JoinedIsInjective(a, b);
    }
  }

  lemma BracketIff(name: string, properties: seq<Property>)
    requires '[' !in name
    ensures '[' in (if properties == [] then name else name + "[" + Joined(properties) + "]") <==> properties != []
  {
    hide Joined;
    if properties != [] {
      var key := name + "[" + Joined(properties) + "]";
      assert key[|name|] == '[';
    }
  }

  lemma KeySplits(name: string, a: seq<Property>, other: string, b: seq<Property>)
    requires '[' !in name && '[' !in other
    requires name + "[" + Joined(a) + "]" == other + "[" + Joined(b) + "]"
    ensures name == other && Joined(a) == Joined(b)
  {
    var x, y := Joined(a), Joined(b);
    hide Joined;
    assert name + "[" + x + "]" == name + ['['] + (x + "]") && other + "[" + y + "]" == other + ['['] + (y + "]");
    SplitFirst('[', name, other, x + "]", y + "]");
    assert (x + "]")[..|x|] == x && (y + "]")[..|y|] == y;
  }

  /** Two keys are equal exactly if the states are the same, however their properties are listed. */
  lemma KeyIff(locale: Locale, s: State, t: State)
    requires TotalPreorder(locale) && PlainState(s) && PlainState(t) && NamesApart(locale, s, t)
    ensures BlockStateKey(locale, s) == BlockStateKey(locale, t) <==> SameState(s, t)
  {
    var leq := ByName(locale);
    ByNameIsTotalPreorder(locale);
    SortKeepsMembers(Entries(s), leq);
    SortKeepsMembers(Entries(t), leq);
    if BlockStateKey(locale, s) == BlockStateKey(locale, t) {
      KeyDetermines(locale, s, t);
      hide BlockStateKey, Sort;
      SameMembers(s, t);
    }
    if SameState(s, t) {
      SameMembers(s, t);
      NoTiesAmong(locale, s, t);
      SameBag(Entries(s), Entries(t));
      SortIsCanonical(Entries(s), Entries(t), leq);
    }
  }

  lemma SameMembers(s: State, t: State)
    ensures (forall name, value :: HasProperty(s, name, value) <==> HasProperty(t, name, value)) <==>
              forall p :: p in Entries(s) <==> p in Entries(t)
  {
    forall p: Property ensures p in Entries(s) <==> HasProperty(s, p.0, p.1) {
      assert p == (p.0, p.1);
    }
    forall p: Property ensures p in Entries(t) <==> HasProperty(t, p.0, p.1) {
      assert p == (p.0, p.1);
    }
    if forall p :: p in Entries(s) <==> p in Entries(t) {
      forall name, value ensures HasProperty(s, name, value) <==> HasProperty(t, name, value) {
        assert (name, value) in Entries(s) <==> (name, value) in Entries(t);
      }
    }
  }

  lemma NoTiesAmong(locale: Locale, s: State, t: State)
    requires PlainState(s) && NamesApart(locale, s, t)
    ensures NoTies(Entries(s), ByName(locale))
  {
    forall p, q | p in Entries(s) && q in Entries(s) && ByName(locale)(p, q) && ByName(locale)(q, p) ensures p == q {
      var i :| 0 <= i < |Entries(s)| && Entries(s)[i] == p;
      var j :| 0 <= j < |Entries(s)| && Entries(s)[j] == q;
      assert p.0 == q.0;
    }
  }

  ghost predicate EachNameOnce(s: seq<Property>) {
    forall i, j :: 0 <= i < j < |s| ==> s[i].0 != s[j].0
  }

  lemma {:induction false} SameBag(s: seq<Property>, t: seq<Property>)
    requires EachNameOnce(s) && EachNameOnce(t) && forall p :: p in s <==> p in t
    ensures multiset(s) == multiset(t)
  {
    forall p ensures multiset(s)[p] == multiset(t)[p] {
      OnceAtMost(s, p);
      OnceAtMost(t, p);
    }
  }

  lemma {:induction false} OnceAtMost(s: seq<Property>, p: Property)
    requires EachNameOnce(s)
    ensures multiset(s)[p] == if p in s then 1 else 0
  {
    if s != [] {
      OnceAtMost(s[1..], p);
      assert s == [s[0]] + s[1..];
      assert s[0] !in s[1..];
    }
  }

  // ---------------------------------------------------------------------------------------------
  // Copies, and many states
  // ---------------------------------------------------------------------------------------------

  /** The states are plain, and the names of all their properties apart. */
  ghost predicate PlainStates(locale: Locale, states: iset<State>) {
    && (forall s :: s in states ==> PlainState(s))
    && forall s, t :: s in states && t in states ==> NamesApart(locale, s, t)
  }

  /** A copy is the same state. */
  lemma CloneIsSame(locale: Locale, s: State)
    ensures SameState(CloneBlockStateEntry(locale, s), s)
    ensures PlainState(s) ==> PlainState(CloneBlockStateEntry(locale, s))
    ensures forall p :: p in Entries(CloneBlockStateEntry(locale, s)) <==> p in Entries(s)
  {
    var copy, leq := CloneBlockStateEntry(locale, s), ByName(locale);
    SortKeepsMembers(Entries(s), leq);
    assert s.properties.Some? ==> Entries(copy) == Sort(Entries(s), leq);
    hide Sort;
    SameMembers(copy, s);
    if PlainState(s) && s.properties.Some? {
      SortKeepsNames(Entries(s), leq);
      forall i | 0 <= i < |Entries(copy)| ensures PlainProperty(Entries(copy)[i]) {
        assert Entries(copy)[i] in Entries(copy);
      }
    }
  }

  lemma SortKeepsNames(s: seq<Property>, leq: (Property, Property) -> bool)
    requires EachNameOnce(s)
    ensures EachNameOnce(Sort(s, leq))
  {
    var differ := (p: Property, q: Property) => p.0 != q.0;
    forall i, j | 0 <= i < |s| && 0 <= j < |s| && i != j ensures differ(s[i], s[j]) {
      assert i < j || j < i;
    }
    SortKeepsPairwise(s, leq, differ);
    var sorted := Sort(s, leq);
    forall i, j | 0 <= i < j < |sorted| ensures sorted[i].0 != sorted[j].0 {
      assert differ(sorted[i], sorted[j]);
    }
  }

  /** So the keys of copies are equal exactly if the states copied are the same. */
  lemma CopiesKeyIff(locale: Locale, s: State, t: State)
    requires TotalPreorder(locale) && PlainState(s) && PlainState(t) && NamesApart(locale, s, t)
    ensures var a, b := CloneBlockStateEntry(locale, s), CloneBlockStateEntry(locale, t);
            BlockStateKey(locale, a) == BlockStateKey(locale, b) <==> SameState(s, t)
  {
    CloneKeepsKey(locale, s);
    CloneKeepsKey(locale, t);
    KeyIff(locale, s, t);
  }

  /** A comma in a value can pass for the next property: the joined keys have no escapes. */
  lemma CommasCollide(locale: Locale)
    requires locale("a", "b")
    ensures BlockStateKey(locale, State("s", Some([("a", "1,b=2")])))
            == BlockStateKey(locale, State("s", Some([("a", "1"), ("b", "2")])))
  {
    var one: seq<Property>, two: seq<Property> := [("a", "1,b=2")], [("a", "1"), ("b", "2")];
    var leq := ByName(locale);
    assert two[1..] == [("b", "2")] && one[1..] == [] && two[1..][1..] == [];
    assert Sort(one, leq) == one && Sort(two[1..], leq) == two[1..] && Sort(two, leq) == two;
    hide Sort;
    JoinedFirst(one);
    JoinedFirst(two);
    JoinedFirst(two[1..]);
    assert Joined(one) == "a=1,b=2" == Joined(two);
  }
}
