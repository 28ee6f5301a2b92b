/**
 The collapsible side menu of the CEP lookup front end.

 The component keeps one piece of state, the ordered list of expanded
 (focused) service keys. It starts empty and changes only through the toggle
 rule: a key that is present is filtered out, a key that is absent is appended.
 Everything rendered is a pure function of that list and of a fixed,
 read-only map from key to menu item.
 */
module SideMenu {

  datatype Option<T> = None | Some(value: T)

  /** The closed enumeration of service keys (a union of three string literals). */
  datatype MenuItemKey = AtualizacaoAutomatica | BuscarLocalizacao | InserirLocalizacao

  /** The string literal that stands for a key at run time. */
  function KeyName(k: MenuItemKey): (name: string)
  {
    match k
    case AtualizacaoAutomatica => "atualizacao-automatica"
    case BuscarLocalizacao => "buscar-localizacao"
    case InserirLocalizacao => "inserir-localizacao"
  }

  /**
   Which key, if any, a string denotes: the literals the union type admits.
   The program never converts a string to a key at run time; the union is
   checked at compile time, and this function only describes that domain.
   */
  function ParseKey(s: string): (r: Option<MenuItemKey>)
    ensures r.Some? ==> KeyName(r.value) == s
    ensures r.None? ==> forall k: MenuItemKey :: KeyName(k) != s
  {
    if s == "atualizacao-automatica" then Some(AtualizacaoAutomatica)
    else if s == "buscar-localizacao" then Some(BuscarLocalizacao)
    else if s == "inserir-localizacao" then Some(InserirLocalizacao)
    else None
  }

  /** Every key round-trips through its string literal, so the literals are pairwise distinct. */
  lemma KeyNameRoundTrip(k: MenuItemKey)
    ensures ParseKey(KeyName(k)) == Some(k)
  {
  }

  /** A static menu entry descriptor (`labelText` is its `label` property); `icon` is optional and no entry sets it. */
  datatype MenuItem = MenuItem(id: string, labelText: string, icon: Option<string>)

  /** The read-only record from key to descriptor, total over the enumeration. */
  function ServiceItem(k: MenuItemKey): (item: MenuItem)
  {
    match k
    case AtualizacaoAutomatica => MenuItem("1", "Atualização Automática", None)
    case BuscarLocalizacao => MenuItem("2", "Buscar Localização", None)
    case InserirLocalizacao => MenuItem("3", "Inserir Localização", None)
  }

  /** The keys of the record, in declaration order. */
  const MenuKeys: seq<MenuItemKey> := [AtualizacaoAutomatica, BuscarLocalizacao, InserirLocalizacao]

  /** The record's ids are distinct (they serve as list keys) and no entry has an icon. */
  lemma ServiceItemIds(k1: MenuItemKey, k2: MenuItemKey)
    ensures ServiceItem(k1).id == ServiceItem(k2).id <==> k1 == k2
    ensures ServiceItem(k1).icon.None?
  {
  }

  /** The key list enumerates every key exactly once, in the order the ids number them. */
  lemma MenuKeysEnumerate(k: MenuItemKey)
    ensures |MenuKeys| == 3 && NoDuplicates(MenuKeys)
    ensures k in MenuKeys
    ensures forall i :: 0 <= i < |MenuKeys| ==> ServiceItem(MenuKeys[i]).id == [('1' as int + i) as char]
  {
    match k
    case AtualizacaoAutomatica => assert MenuKeys[0] == k;
    case BuscarLocalizacao => assert MenuKeys[1] == k;
    case InserirLocalizacao => assert MenuKeys[2] == k;
  }

  // ---------------------------------------------------------------------------
  // The focused sequence and the toggle rule
  // ---------------------------------------------------------------------------

  ghost predicate NoDuplicates(s: seq<MenuItemKey>)
  {
    forall i, j :: 0 <= i < j < |s| ==> s[i] != s[j]
  }

  /** The filter `item !== key`: every occurrence of `key` dropped, the rest kept. */
  function Without(s: seq<MenuItemKey>, key: MenuItemKey): (r: seq<MenuItemKey>)
    ensures multiset(r) == multiset(s)[key := 0]
    ensures key !in s ==> r == s
  {
    if s == [] then []
    else
      assert s == [s[0]] + s[1..];
      if s[0] == key then Without(s[1..], key)
      else [s[0]] + Without(s[1..], key)
  }

  /** The updater passed to the state setter: maps the previous sequence to the next. */
  function Toggle(prev: seq<MenuItemKey>, key: MenuItemKey): (next: seq<MenuItemKey>)
  {
    if key in prev then Without(prev, key) else prev + [key]
  }

  /** Toggling an absent key appends it last and leaves every earlier element in place. */
  lemma ToggleAbsentAppends(s: seq<MenuItemKey>, key: MenuItemKey)
    requires key !in s
    ensures |Toggle(s, key)| == |s| + 1
    ensures Toggle(s, key)[|s|] == key
    ensures forall i :: 0 <= i < |s| ==> Toggle(s, key)[i] == s[i]
  {
  }

  /** `r` is `s` with some elements deleted and the rest in their original order. */
  ghost predicate IsSubsequence(r: seq<MenuItemKey>, s: seq<MenuItemKey>)
    decreases |s|
  {
    if r == [] then true
    else if s == [] then false
    else (r[0] == s[0] && IsSubsequence(r[1..], s[1..])) || IsSubsequence(r, s[1..])
  }

  lemma {:induction false} WithoutIsSubsequence(s: seq<MenuItemKey>, key: MenuItemKey)
    ensures IsSubsequence(Without(s, key), s)
    decreases |s|
  {
    if s != [] {
      WithoutIsSubsequence(s[1..], key);
      var w := Without(s[1..], key);
      if s[0] != key {
        assert Without(s, key) == [s[0]] + w;
        assert ([s[0]] + w)[1..] == w;
      } else if w != [] {
        assert Without(s, key) == w;
      }
    }
  }

  lemma {:induction false} WithoutConcat(a: seq<MenuItemKey>, b: seq<MenuItemKey>, key: MenuItemKey)
    ensures Without(a + b, key) == Without(a, key) + Without(b, key)
    decreases |a|
  {
    if a == [] {
      assert a + b == b;
    } else {
      assert (a + b)[0] == a[0];
      assert (a + b)[1..] == a[1..] + b;
      WithoutConcat(a[1..], b, key);
    }
  }

  lemma NoDuplicatesSlices(s: seq<MenuItemKey>, i: int)
    requires NoDuplicates(s) && 0 <= i < |s|
    ensures s[i] !in s[..i] && s[i] !in s[i + 1..]
  {
    forall j | 0 <= j < i ensures s[..i][j] != s[i] {
      assert s[..i][j] == s[j];
    }
    var after := s[i + 1..];
    forall j | 0 <= j < |after| ensures after[j] != s[i] {
      assert after[j] == s[i + 1 + j];
    }
  }

  /** In a duplicate-free sequence, toggling the present key at index i splices out exactly position i. */
  lemma TogglePresentSplices(s: seq<MenuItemKey>, i: int)
    requires NoDuplicates(s) && 0 <= i < |s|
    ensures Toggle(s, s[i]) == s[..i] + s[i + 1..]
  {
    var key := s[i];
    NoDuplicatesSlices(s, i);
    assert s == s[..i] + ([key] + s[i + 1..]);
    WithoutConcat(s[..i], [key] + s[i + 1..], key);
    WithoutConcat([key], s[i + 1..], key);
    assert Without([key], key) == [];
  }

  /** Toggling a present key removes it and keeps the other keys in their relative order. */
  lemma TogglePresentRemoves(s: seq<MenuItemKey>, key: MenuItemKey)
    requires key in s
    ensures key !in Toggle(s, key)
    ensures multiset(Toggle(s, key)) == multiset(s)[key := 0]
    ensures IsSubsequence(Toggle(s, key), s)
  {
    assert multiset(Without(s, key))[key] == 0;
    WithoutIsSubsequence(s, key);
  }

  /** Toggle flips the membership of its key and leaves the membership of every other key unchanged. */
  lemma ToggleFlipsMembership(s: seq<MenuItemKey>, key: MenuItemKey, x: MenuItemKey)
    ensures x in Toggle(s, key) <==> (if x == key then key !in s else x in s)
  {
    if key in s {
      assert x in Without(s, key) <==> x in multiset(Without(s, key));
    }
  }

  lemma NoDuplicatesTail(s: seq<MenuItemKey>)
    requires NoDuplicates(s) && s != []
    ensures NoDuplicates(s[1..])
  {
    var tail := s[1..];
    forall i, j | 0 <= i < j < |tail| ensures tail[i] != tail[j] {
      assert tail[i] == s[i + 1] && tail[j] == s[j + 1];
    }
  }

  lemma NoDuplicatesCons(x: MenuItemKey, w: seq<MenuItemKey>)
    requires NoDuplicates(w) && x !in w
    ensures NoDuplicates([x] + w)
  {
    var c := [x] + w;
    forall i, j | 0 <= i < j < |c| ensures c[i] != c[j] {
      assert c[j] == w[j - 1];
      if i > 0 {
        assert c[i] == w[i - 1];
      }
    }
  }

  lemma {:induction false} NoDuplicatesWithout(s: seq<MenuItemKey>, key: MenuItemKey)
    requires NoDuplicates(s)
    ensures NoDuplicates(Without(s, key))
    decreases |s|
  {
    if s != [] {
      NoDuplicatesTail(s);
      NoDuplicatesWithout(s[1..], key);
      if s[0] != key {
        var w := Without(s[1..], key);
        NoDuplicatesSlices(s, 0);
        assert s[0] !in multiset(w);
        NoDuplicatesCons(s[0], w);
      }
    }
  }

  /** A duplicate-free sequence over the three keys has at most three elements. */
  lemma AtMostThree(s: seq<MenuItemKey>)
    requires NoDuplicates(s)
    ensures |s| <= 3
  {
    var all := {AtualizacaoAutomatica, BuscarLocalizacao, InserirLocalizacao};
    DistinctCard(s);
    var present := set k | k in s;
    assert present <= all;
    assert all == present + (all - present);
    assert |all| == |present| + |all - present|;

  }

  /** Toggle keeps the sequence duplicate-free. */
  lemma ToggleKeepsNoDuplicates(s: seq<MenuItemKey>, key: MenuItemKey)
    requires NoDuplicates(s)
    ensures NoDuplicates(Toggle(s, key)) && |Toggle(s, key)| <= 3
  {
    if key in s {
      NoDuplicatesWithout(s, key);
    }
    AtMostThree(Toggle(s, key));
  }

  /** The focused sequence after a series of clicks, starting from the empty state. */
  function Run(clicks: seq<MenuItemKey>): (focused: seq<MenuItemKey>)
  {
    if clicks == [] then [] else Toggle(Run(clicks[..|clicks| - 1]), clicks[|clicks| - 1])
  }

  /** Every reachable focused sequence is duplicate-free and has at most three keys. */
  lemma {:induction false} RunInvariant(clicks: seq<MenuItemKey>)
    ensures NoDuplicates(Run(clicks)) && |Run(clicks)| <= 3
    decreases |clicks|
  {
    if clicks != [] {
      RunInvariant(clicks[..|clicks| - 1]);
      ToggleKeepsNoDuplicates(Run(clicks[..|clicks| - 1]), clicks[|clicks| - 1]);
    }
  }

  /** Two toggles of an absent key restore the exact sequence. */
  lemma DoubleToggleAbsent(s: seq<MenuItemKey>, key: MenuItemKey)
    requires key !in s
    ensures Toggle(Toggle(s, key), key) == s
  {
    WithoutConcat(s, [key], key);
    assert Without([key], key) == [];
  }

  /** Two toggles of a present key filter it out and append it again, on any sequence, duplicates or not. */
  lemma DoubleToggleMovesToEnd(s: seq<MenuItemKey>, key: MenuItemKey)
    requires key in s
    ensures Toggle(Toggle(s, key), key) == Without(s, key) + [key]
  {
    assert multiset(Without(s, key))[key] == 0;
    assert key !in Without(s, key);
  }

  /**
   On a duplicate-free sequence, two toggles of a present key restore the same
   keys but move the key to the end, so the sequence comes back equal only when
   the key was already last.
   */
  lemma DoubleTogglePresent(s: seq<MenuItemKey>, key: MenuItemKey)
    requires NoDuplicates(s) && key in s
    ensures Toggle(Toggle(s, key), key) == Without(s, key) + [key]
    ensures multiset(Toggle(Toggle(s, key), key)) == multiset(s)
    ensures Toggle(Toggle(s, key), key) == s <==> s[|s| - 1] == key
  {
    DoubleToggleMovesToEnd(s, key);
    var i :| 0 <= i < |s| && s[i] == key;
    DoubleTogglePresentAt(s, i);
  }

  lemma DoubleTogglePresentAt(s: seq<MenuItemKey>, i: int)
    requires NoDuplicates(s) && 0 <= i < |s|
    ensures Toggle(Toggle(s, s[i]), s[i]) == s[..i] + s[i + 1..] + [s[i]]
    ensures multiset(Toggle(Toggle(s, s[i]), s[i])) == multiset(s)
    ensures Toggle(Toggle(s, s[i]), s[i]) == s <==> i == |s| - 1
  {
    var key := s[i];
    var w := s[..i] + s[i + 1..];
    TogglePresentSplices(s, i);
    NoDuplicatesSlices(s, i);
    assert key !in w;
    assert Toggle(w, key) == w + [key];
    SpliceToEnd(s, i);
  }

  /** Moving element i to the end keeps the multiset; it yields the same sequence only for the last position. */
  lemma SpliceToEnd(s: seq<MenuItemKey>, i: int)
    requires NoDuplicates(s) && 0 <= i < |s|
    ensures multiset(s[..i] + s[i + 1..] + [s[i]]) == multiset(s)
    ensures s[..i] + s[i + 1..] + [s[i]] == s <==> i == |s| - 1
  {
    var t := s[..i] + s[i + 1..] + [s[i]];
    assert s == s[..i] + [s[i]] + s[i + 1..];
    assert |t| == |s| && t[|t| - 1] == s[i];
    if i == |s| - 1 {
      assert s[i + 1..] == [];
    } else {
      assert s[i] != s[|s| - 1];
    }
  }

  /** A concrete case: with two keys expanded, collapsing and re-expanding the first reorders them. */
  lemma DoubleToggleReorders(a: MenuItemKey, b: MenuItemKey)
    requires a != b
    ensures Toggle(Toggle([a, b], a), a) == [b, a] != [a, b]
  {
    assert [a, b][1..] == [b];
    assert Without([a, b], a) == [b];
  }

  /** Two distinct keys are kept in click order; toggling either again removes only that one. */
  lemma TwoKeysInsertionOrder(a: MenuItemKey, b: MenuItemKey)
    requires a != b
    ensures Run([a, b]) == [a, b]
    ensures Run([a, b, a]) == [b]
    ensures Run([a, b, b]) == [a]
  {
    assert [a, b][..1] == [a];
    assert Run([a]) == [a];
    assert [a, b, a][..2] == [a, b] && [a, b, b][..2] == [a, b];
    assert Without([a, b], a) == [b] by {
      assert [a, b][1..] == [b];
    }
    assert Without([a, b], b) == [a] by {
      assert [a, b][1..] == [b];
    }
  }

  // ---------------------------------------------------------------------------
  // The derived view
  // ---------------------------------------------------------------------------

  /**
   One rendered list entry: its key and descriptor, whether the button carries
   the `focused` class, whether the down-arrow glyph is shown and whether the
   expandable region carries the `expanded` class.
   */
  datatype MenuEntry = MenuEntry(key: MenuItemKey, item: MenuItem, buttonFocused: bool, arrowShown: bool, expanded: bool)

  function Entry(key: MenuItemKey, focused: seq<MenuItemKey>): (entry: MenuEntry)
  {
    var isFocused := key in focused;
    MenuEntry(key, ServiceItem(key), isFocused, !isFocused, isFocused)
  }

  /** The list rendered for a focused sequence: one entry per key of the record, in order. */
  function View(focused: seq<MenuItemKey>): (v: seq<MenuEntry>)
    ensures |v| == |MenuKeys|
    ensures forall i :: 0 <= i < |v| ==> v[i].key == MenuKeys[i] && v[i].item == ServiceItem(MenuKeys[i])
    ensures forall i :: 0 <= i < |v| ==>
      (v[i].buttonFocused <==> MenuKeys[i] in focused) &&
      (v[i].expanded <==> MenuKeys[i] in focused) &&
      (v[i].arrowShown <==> MenuKeys[i] !in focused)
  {
    seq(|MenuKeys|, i requires 0 <= i < |MenuKeys| => Entry(MenuKeys[i], focused))
  }

  /** Freshly mounted, every entry is collapsed: arrow shown, nothing focused or expanded. */
  lemma InitialViewCollapsed()
    ensures forall e :: e in View([]) ==> e.arrowShown && !e.buttonFocused && !e.expanded
  {
  }

  /** A toggle changes the view of its own entry only, flipping it; every other entry is unchanged. */
  lemma ViewAfterToggle(s: seq<MenuItemKey>, key: MenuItemKey, i: int)
    requires 0 <= i < 3
    ensures View(Toggle(s, key))[i].expanded == (if MenuKeys[i] == key then !View(s)[i].expanded else View(s)[i].expanded)
    ensures View(Toggle(s, key))[i].arrowShown == !View(Toggle(s, key))[i].expanded
    ensures View(Toggle(s, key))[i].item == View(s)[i].item
  {
    ToggleFlipsMembership(s, key, MenuKeys[i]);
  }

  lemma {:induction false} DistinctCard(s: seq<MenuItemKey>)
    requires NoDuplicates(s)
    ensures |set k | k in s| == |s|
    decreases |s|
  {
    if s != [] {
      var t := s[..|s| - 1];
      var last := s[|s| - 1];
      assert NoDuplicates(t) by {
        forall i, j | 0 <= i < j < |t| ensures t[i] != t[j] {
          assert t[i] == s[i] && t[j] == s[j];
        }
      }
      DistinctCard(t);
      NoDuplicatesSlices(s, |s| - 1);
      assert s == t + [last];
      var before, now := set k | k in t, set k | k in s;
      assert now == before + {last};
      assert last !in before;
    }
  }

  /** The expanded entries are exactly the focused keys, one entry for each element of a duplicate-free sequence. */
  lemma ExpandedEntries(s: seq<MenuItemKey>)
    requires NoDuplicates(s)
    ensures (set e | e in View(s) && e.expanded :: e.key) == (set k | k in s)
    ensures |set e | e in View(s) && e.expanded :: e.key| == |s|
  {
    var v := View(s);
    forall k | k in s ensures k in (set e | e in v && e.expanded :: e.key) {
      var i := if k == AtualizacaoAutomatica then 0 else if k == BuscarLocalizacao then 1 else 2;
      assert v[i] in v;
    }
    DistinctCard(s);
  }

  // ---------------------------------------------------------------------------
  // The component
  // ---------------------------------------------------------------------------

  const ServicesNavLog: string := "Foco: Serviços"
  const SettingsNavLog: string := "Foco: Configurações"

  /** The mounted component: it owns the focused sequence and replaces it on each click. */
  class Menu {
    var focusedServices: seq<MenuItemKey>

    ghost predicate Valid()
      reads this
    {
      NoDuplicates(focusedServices) && |focusedServices| <= 3
    }

    constructor ()
      ensures Valid() && focusedServices == []
    {
      focusedServices := [];
    }

    /** A click on an entry's button. */
    method ToggleServiceFocus(key: MenuItemKey)
      requires Valid()
      modifies this
      ensures Valid()
      ensures focusedServices == Toggle(old(focusedServices), key)
    {
      ToggleKeepsNoDuplicates(focusedServices, key);
      focusedServices := Toggle(focusedServices, key);
    }

    /** The rendered list for the current state. */
    method Render() returns (entries: seq<MenuEntry>)
      ensures entries == View(focusedServices)
      ensures |entries| == 3
      ensures forall i :: 0 <= i < 3 ==> (entries[i].expanded <==> MenuKeys[i] in focusedServices)
    {
      entries := View(focusedServices);
    }

    /** The "Services" navigation button: returns its diagnostic line, changes no state. */
    method ClickServicesNav() returns (log: string)
      ensures log == ServicesNavLog
      ensures focusedServices == old(focusedServices)
    {
      log := ServicesNavLog;
    }

    /** The "Settings" navigation button: returns its diagnostic line, changes no state. */
    method ClickSettingsNav() returns (log: string)
      ensures log == SettingsNavLog
      ensures focusedServices == old(focusedServices)
    {
      log := SettingsNavLog;
    }
  }
}
