/**
 * The keyboard-shortcut help overlay of the micro-editor envelope: how the
 * registered shortcuts become the grouped list the overlay shows, and how a
 * key combination is formatted for display.
 *
 * The list is built in four steps: keep the first shortcut registered for
 * each combination, drop the hidden ones, rewrite `Ctrl` to `Cmd` on macOS
 * and split each label `"Category | Label"`, then group the entries by
 * category in the order the categories first appear.
 */
module KeyBindingsHelpOverlay {
  import opened Wrappers
  import opened Strings

  // ---------------------------------------------------------------------
  // Data model
  // ---------------------------------------------------------------------

  datatype OperatingSystem = MacOS | Windows | Linux

  /** The part of the editor context the overlay reads. */
  datatype EditorContext = EditorContext(operatingSystem: OperatingSystem)

  /** Registration options; an absent `hidden` counts as not hidden. */
  datatype KeyBindingOpts = KeyBindingOpts(hidden: Option<bool>)

  /** A registered keyboard shortcut. */
  datatype KeyBinding = KeyBinding(combination: string, labelText: string, opts: Option<KeyBindingOpts>)

  /** `k.opts?.hidden` is truthy. */
  predicate IsHidden(k: KeyBinding)
  {
    k.opts.Some? && k.opts.value.hidden == Some(true)
  }

  function Combination(k: KeyBinding): string
  {
    k.combination
  }

  // ---------------------------------------------------------------------
  // Subsequences
  // ---------------------------------------------------------------------

  /** `r` is `s` with some elements left out, the rest in their order. */
  predicate IsSubsequence<T(==)>(r: seq<T>, s: seq<T>)
    decreases |s|
  {
    if r == [] then true
    else if s == [] then false
    else (r[0] == s[0] && IsSubsequence(r[1..], s[1..])) || IsSubsequence(r, s[1..])
  }

  /** A subsequence of a subsequence is a subsequence. */
  lemma {:induction false} SubsequenceTransitive<T>(a: seq<T>, b: seq<T>, c: seq<T>)
    requires IsSubsequence(a, b) && IsSubsequence(b, c)
    ensures IsSubsequence(a, c)
    decreases |c|
  {
    if a != [] {
      assert b != [] && c != [];
      if b[0] == c[0] && IsSubsequence(b[1..], c[1..]) {
        if a[0] == b[0] && IsSubsequence(a[1..], b[1..]) {
          SubsequenceTransitive(a[1..], b[1..], c[1..]);
        } else {
          SubsequenceTransitive(a, b[1..], c[1..]);
        }
      } else {
        SubsequenceTransitive(a, b, c[1..]);
      }
    }
  }

  // ---------------------------------------------------------------------
  // removeDuplicatesByAttr
  // ---------------------------------------------------------------------

  /** `arr.map(x => x[prop])`, the attribute read through `key`. */
  function Keys<T, K>(arr: seq<T>, key: T -> K): (ks: seq<K>)
    ensures |ks| == |arr| && forall i :: 0 <= i < |arr| ==> ks[i] == key(arr[i])
  {
    seq(|arr|, i requires 0 <= i < |arr| => key(arr[i]))
  }

  /** `ks.indexOf(k)`: the first position of `k`, or -1. */
  function IndexOf<K(==)>(ks: seq<K>, k: K): (r: int)
    ensures -1 <= r < |ks|
    ensures r == -1 <==> k !in ks
    ensures 0 <= r ==> ks[r] == k && k !in ks[..r]
  {
    if |ks| == 0 then -1
    else if ks[0] == k then 0
    else
      var t := IndexOf(ks[1..], k);
      if t == -1 then -1
      else
        assert ks[..t + 1] == [ks[0]] + ks[1..][..t];
        t + 1
  }

  /** The filter of `removeDuplicatesByAttr`, from position `pos` on. */
  function KeepFirstFrom<T, K(==)>(arr: seq<T>, key: T -> K, pos: nat): seq<T>
    requires pos <= |arr|
    decreases |arr| - pos
  {
    if pos == |arr| then []
    else (if IndexOf(Keys(arr, key), key(arr[pos])) == pos then [arr[pos]] else [])
         + KeepFirstFrom(arr, key, pos + 1)
  }

  /**
   * `removeDuplicatesByAttr(arr, prop)`: keeps the element at position `pos`
   * when the first element with its attribute value sits at `pos`.
   */
  function RemoveDuplicatesByAttr<T, K(==)>(arr: seq<T>, key: T -> K): seq<T>
  {
    KeepFirstFrom(arr, key, 0)
  }

  /** The attribute values present in `s`. */
  function KeySet<T(==), K>(s: seq<T>, key: T -> K): set<K>
  {
    set x | x in s :: key(x)
  }

  /** The first element of `s` whose attribute value is `k`. */
  function FirstWithKey<T, K(==)>(s: seq<T>, key: T -> K, k: K): Option<T>
  {
    if s == [] then None
    else if key(s[0]) == k then Some(s[0])
    else FirstWithKey(s[1..], key, k)
  }

  /**
   * Reference definition: scan left to right, keep an element when its
   * attribute value has not been seen yet.
   */
  function FirstOccurrences<T, K(==)>(s: seq<T>, key: T -> K, seen: set<K>): seq<T>
  {
    if s == [] then []
    else if key(s[0]) in seen then FirstOccurrences(s[1..], key, seen)
    else [s[0]] + FirstOccurrences(s[1..], key, seen + {key(s[0])})
  }

  lemma KeySetSnoc<T, K>(s: seq<T>, key: T -> K, x: T)
    ensures KeySet(s + [x], key) == KeySet(s, key) + {key(x)}
  {
  }

  /** The `indexOf` test of the source is "not seen in the prefix". */
  lemma IndexOfIsFirst<T, K>(arr: seq<T>, key: T -> K, pos: nat)
    requires pos < |arr|
    ensures IndexOf(Keys(arr, key), key(arr[pos])) == pos <==> key(arr[pos]) !in KeySet(arr[..pos], key)
  {
  }

  /** The source's filter computes the reference scan, seeded with the prefix's values. */
  lemma {:induction false} KeepFirstFromIsFirstOccurrences<T, K>(arr: seq<T>, key: T -> K, pos: nat)
    requires pos <= |arr|
    ensures KeepFirstFrom(arr, key, pos) == FirstOccurrences(arr[pos..], key, KeySet(arr[..pos], key))
    decreases |arr| - pos
  {
    if pos < |arr| {
      var seen := KeySet(arr[..pos], key);
      var x := arr[pos];
      IndexOfIsFirst(arr, key, pos);
      KeySetSnoc(arr[..pos], key, x);
      assert arr[..pos] + [x] == arr[..pos + 1];
      assert arr[pos..][0] == x && arr[pos..][1..] == arr[pos + 1..];
      KeepFirstFromIsFirstOccurrences(arr, key, pos + 1);
      if key(x) in seen {
        assert seen + {key(x)} == seen;
        assert FirstOccurrences(arr[pos..], key, seen) == FirstOccurrences(arr[pos + 1..], key, seen);
      } else {
        assert FirstOccurrences(arr[pos..], key, seen)
               == [x] + FirstOccurrences(arr[pos + 1..], key, seen + {key(x)});
      }
    } else {
      assert arr[pos..] == [];
    }
  }

  lemma RemoveDuplicatesByAttrIsFirstOccurrences<T, K>(arr: seq<T>, key: T -> K)
    ensures RemoveDuplicatesByAttr(arr, key) == FirstOccurrences(arr, key, {})
  {
    KeepFirstFromIsFirstOccurrences(arr, key, 0);
    assert arr[0..] == arr;
    assert KeySet(arr[..0], key) == {};
  }

  /** The attribute values of `r` are pairwise distinct. */
  predicate DistinctKeys<T, K(==)>(r: seq<T>, key: T -> K)
  {
    forall i, j :: 0 <= i < j < |r| ==> key(r[i]) != key(r[j])
  }

  /** The scan keeps pairwise distinct values, none of them seen before. */
  lemma {:induction false} FirstOccurrencesDistinct<T, K>(s: seq<T>, key: T -> K, seen: set<K>)
    ensures forall i :: 0 <= i < |FirstOccurrences(s, key, seen)| ==> key(FirstOccurrences(s, key, seen)[i]) !in seen
    ensures DistinctKeys(FirstOccurrences(s, key, seen), key)
  {
    if s != [] {
      var x := s[0];
      if key(x) in seen {
        assert FirstOccurrences(s, key, seen) == FirstOccurrences(s[1..], key, seen);
        FirstOccurrencesDistinct(s[1..], key, seen);
      } else {
        var rest := FirstOccurrences(s[1..], key, seen + {key(x)});
        FirstOccurrencesDistinct(s[1..], key, seen + {key(x)});
        var r := [x] + rest;
        assert FirstOccurrences(s, key, seen) == r;
        assert forall j :: 0 < j < |r| ==> r[j] == rest[j - 1];
        assert r[0] == x;
      }
    }
  }

  /** The scan keeps every value not seen before. */
  lemma {:induction false} FirstOccurrencesKeySet<T, K>(s: seq<T>, key: T -> K, seen: set<K>)
    ensures KeySet(FirstOccurrences(s, key, seen), key) == KeySet(s, key) - seen
  {
    if s != [] {
      var x := s[0];
      assert KeySet(s, key) == {key(x)} + KeySet(s[1..], key) by {
        assert forall y :: y in s <==> y == x || y in s[1..];
      }
      if key(x) in seen {
        FirstOccurrencesKeySet(s[1..], key, seen);
      } else {
        var rest := FirstOccurrences(s[1..], key, seen + {key(x)});
        FirstOccurrencesKeySet(s[1..], key, seen + {key(x)});
        assert forall y :: y in [x] + rest <==> y == x || y in rest;
        assert KeySet([x] + rest, key) == {key(x)} + KeySet(rest, key);
      }
    }
  }

  lemma {:induction false} FirstOccurrencesSubsequence<T, K>(s: seq<T>, key: T -> K, seen: set<K>)
    ensures IsSubsequence(FirstOccurrences(s, key, seen), s)
  {
    if s != [] {
      if key(s[0]) in seen {
        FirstOccurrencesSubsequence(s[1..], key, seen);
      } else {
        FirstOccurrencesSubsequence(s[1..], key, seen + {key(s[0])});
      }
    }
  }

  /** An element is kept exactly when it is the first of `s` with its value and that value is unseen. */
  lemma {:induction false} FirstOccurrencesMembers<T, K>(s: seq<T>, key: T -> K, seen: set<K>, x: T)
    ensures x in FirstOccurrences(s, key, seen)
            <==> x in s && key(x) !in seen && FirstWithKey(s, key, key(x)) == Some(x)
  {
    if s != [] {
      var y := s[0];
      assert forall z :: z in s <==> z == y || z in s[1..];
      if key(y) in seen {
        FirstOccurrencesMembers(s[1..], key, seen, x);
      } else {
        FirstOccurrencesMembers(s[1..], key, seen + {key(y)}, x);
      }
    }
  }

  /** A sequence whose values are distinct and unseen passes the scan unchanged. */
  lemma {:induction false} FirstOccurrencesOfDistinct<T, K>(s: seq<T>, key: T -> K, seen: set<K>)
    requires forall i, j :: 0 <= i < j < |s| ==> key(s[i]) != key(s[j])
    requires forall i :: 0 <= i < |s| ==> key(s[i]) !in seen
    ensures FirstOccurrences(s, key, seen) == s
  {
    if s != [] {
      var t := s[1..];
      forall i | 0 <= i < |t| ensures key(t[i]) !in seen + {key(s[0])} {
        assert t[i] == s[i + 1];
      }
      forall i, j | 0 <= i < j < |t| ensures key(t[i]) != key(t[j]) {
        assert t[i] == s[i + 1] && t[j] == s[j + 1];
      }
      FirstOccurrencesOfDistinct(t, key, seen + {key(s[0])});
    }
  }

  /** The output's attribute values are pairwise distinct and are exactly the input's values. */
  lemma RemoveDuplicatesByAttrDistinct<T, K>(arr: seq<T>, key: T -> K)
    ensures DistinctKeys(RemoveDuplicatesByAttr(arr, key), key)
    ensures KeySet(RemoveDuplicatesByAttr(arr, key), key) == KeySet(arr, key)
  {
    RemoveDuplicatesByAttrIsFirstOccurrences(arr, key);
    FirstOccurrencesDistinct(arr, key, {});
    FirstOccurrencesKeySet(arr, key, {});
  }

  /**
   * The output keeps the input's order and holds exactly the first element
   * of the input with each attribute value.
   */
  lemma RemoveDuplicatesByAttrKeepsFirst<T, K>(arr: seq<T>, key: T -> K)
    ensures IsSubsequence(RemoveDuplicatesByAttr(arr, key), arr)
    ensures forall x :: x in RemoveDuplicatesByAttr(arr, key)
                        <==> x in arr && FirstWithKey(arr, key, key(x)) == Some(x)
  {
    RemoveDuplicatesByAttrIsFirstOccurrences(arr, key);
    FirstOccurrencesSubsequence(arr, key, {});
    forall x ensures x in FirstOccurrences(arr, key, {})
                     <==> x in arr && FirstWithKey(arr, key, key(x)) == Some(x) {
      FirstOccurrencesMembers(arr, key, {}, x);
    }
  }

  /** Removing duplicates twice is removing them once. */
  lemma RemoveDuplicatesByAttrIdempotent<T, K>(arr: seq<T>, key: T -> K)
    ensures RemoveDuplicatesByAttr(RemoveDuplicatesByAttr(arr, key), key) == RemoveDuplicatesByAttr(arr, key)
  {
    var r := RemoveDuplicatesByAttr(arr, key);
    RemoveDuplicatesByAttrDistinct(arr, key);
    RemoveDuplicatesByAttrIsFirstOccurrences(r, key);
    FirstOccurrencesOfDistinct(r, key, {});
  }

  // ---------------------------------------------------------------------
  // The hidden filter, the macOS rewrite and the label split
  // ---------------------------------------------------------------------

  /** `.filter(k => !k.opts?.hidden)`. */
  function VisibleBindings(bs: seq<KeyBinding>): (r: seq<KeyBinding>)
    ensures forall k :: k in r <==> k in bs && !IsHidden(k)
    ensures IsSubsequence(r, bs)
  {
    if bs == [] then []
    else if IsHidden(bs[0]) then
      var r := VisibleBindings(bs[1..]);
      assert forall k :: k in bs <==> k == bs[0] || k in bs[1..];
      r
    else
      var r := [bs[0]] + VisibleBindings(bs[1..]);
      assert forall k :: k in bs <==> k == bs[0] || k in bs[1..];
      assert r[1..] == VisibleBindings(bs[1..]);
      r
  }

  /** The filter keeps every visible binding as many times as it occurs, and no hidden one. */
  lemma {:induction false} VisibleBindingsMultiplicity(bs: seq<KeyBinding>)
    ensures forall k :: multiset(VisibleBindings(bs))[k] == if IsHidden(k) then 0 else multiset(bs)[k]
  {
    if bs != [] {
      VisibleBindingsMultiplicity(bs[1..]);
      assert bs == [bs[0]] + bs[1..];
      assert multiset(bs) == multiset{bs[0]} + multiset(bs[1..]);
    }
  }

  /**
   * `handleMacOsCombination`: on macOS the first `"Ctrl"` of the combination
   * becomes `"Cmd"`; elsewhere the combination is returned as it is.
   */
  function HandleMacOsCombination(combination: string, context: EditorContext): string
  {
    if context.operatingSystem == MacOS then ReplaceFirst(combination, "Ctrl", "Cmd")
    else combination
  }

  lemma HandleMacOsCombinationSpec(combination: string, context: EditorContext)
    ensures context.operatingSystem != MacOS ==> HandleMacOsCombination(combination, context) == combination
    ensures context.operatingSystem == MacOS && (forall j: nat :: !MatchAt(combination, "Ctrl", j))
            ==> HandleMacOsCombination(combination, context) == combination
    ensures forall i: nat ::
              context.operatingSystem == MacOS && MatchAt(combination, "Ctrl", i)
              && (forall j: nat :: j < i ==> !MatchAt(combination, "Ctrl", j))
              ==> HandleMacOsCombination(combination, context) == combination[..i] + "Cmd" + combination[i + 4..]
  {
  }

  /** Only the first `"Ctrl"` is rewritten. */
  lemma HandleMacOsCombinationExample()
    ensures HandleMacOsCombination("Ctrl+Shift+Ctrl", EditorContext(MacOS)) == "Cmd+Shift+Ctrl"
    ensures HandleMacOsCombination("Ctrl+z", EditorContext(Linux)) == "Ctrl+z"
  {
  }

  /** `label.split("|")[0]?.trim()`: always defined, as a split has at least one piece. */
  function CategoryOf(labelText: string): string
  {
    Trim(Split(labelText, "|")[0])
  }

  /** `label.split("|")[1]?.trim()`: undefined when the label has no `|`. */
  function LabelOf(labelText: string): Option<string>
  {
    var parts := Split(labelText, "|");
    if |parts| > 1 then Some(Trim(parts[1])) else None
  }

  /** Without a `|` the whole label, trimmed, is the category, and there is no label. */
  lemma LabelWithoutSeparator(labelText: string)
    requires '|' !in labelText
    ensures CategoryOf(labelText) == Trim(labelText) && LabelOf(labelText) == None
  {
    SplitNoSeparator(labelText, '|');
  }

  /**
   * The category is the trimmed text before the first `|`, the label the
   * trimmed text after it up to a second `|`, if any; whatever follows a
   * second `|` is dropped.
   */
  lemma LabelWithSeparator(a: string, b: string, c: Option<string>)
    requires '|' !in a && '|' !in b
    ensures var labelText := if c.Some? then a + "|" + b + "|" + c.value else a + "|" + b;
            CategoryOf(labelText) == Trim(a) && LabelOf(labelText) == Some(Trim(b))
  {
    if c.Some? {
      var rest := b + "|" + c.value;
      assert a + "|" + b + "|" + c.value == a + "|" + rest;
      SplitAtFirst(a, rest, '|');
      SplitAtFirst(b, c.value, '|');
    } else {
      SplitAtFirst(a, b, '|');
      SplitNoSeparator(b, '|');
    }
  }

  // ---------------------------------------------------------------------
  // The pipeline up to grouping
  // ---------------------------------------------------------------------

  /** An overlay entry, the object built by `.map(...)`. */
  datatype Entry = Entry(combination: string, category: string, labelText: Option<string>)

  function ToEntry(k: KeyBinding, context: EditorContext): Entry
  {
    Entry(HandleMacOsCombination(k.combination, context), CategoryOf(k.labelText), LabelOf(k.labelText))
  }

  /** Deduplicate by combination, then drop hidden bindings: in this order. */
  function SurvivingBindings(registered: seq<KeyBinding>): seq<KeyBinding>
  {
    VisibleBindings(RemoveDuplicatesByAttr(registered, Combination))
  }

  /** The entries handed to the grouping step. */
  function HelpEntries(registered: seq<KeyBinding>, context: EditorContext): (es: seq<Entry>)
    ensures |es| == |SurvivingBindings(registered)|
    ensures forall i :: 0 <= i < |es| ==> es[i] == ToEntry(SurvivingBindings(registered)[i], context)
  {
    var vs := SurvivingBindings(registered);
    seq(|vs|, i requires 0 <= i < |vs| => ToEntry(vs[i], context))
  }

  /** `k` is visible and the first binding registered for its combination. */
  predicate Survives(registered: seq<KeyBinding>, k: KeyBinding)
  {
    k in registered && !IsHidden(k) && FirstWithKey(registered, Combination, k.combination) == Some(k)
  }

  /**
   * Each help entry comes from a visible binding registered first for its
   * combination, and every such binding yields an entry: its combination
   * rewritten for the operating system, its label text split into category
   * and label.
   */
  lemma HelpEntriesSpec(registered: seq<KeyBinding>, context: EditorContext)
    ensures forall e :: e in HelpEntries(registered, context) <==>
              exists k :: Survives(registered, k) && e == ToEntry(k, context)
    ensures |HelpEntries(registered, context)| == |SurvivingBindings(registered)|
  {
    var vs := SurvivingBindings(registered);
    var es := HelpEntries(registered, context);
    SurvivingBindingsSpec(registered);
    forall e | e in es
      ensures exists k :: Survives(registered, k) && e == ToEntry(k, context)
    {
      var i :| 0 <= i < |es| && es[i] == e;
      assert vs[i] in vs;
    }
    forall k | Survives(registered, k)
      ensures ToEntry(k, context) in es
    {
      assert k in vs;
      var i :| 0 <= i < |vs| && vs[i] == k;
      assert es[i] == ToEntry(k, context);
    }
  }

  /**
   * A binding survives exactly when it is visible and is the first binding
   * registered for its combination; survivors keep the registration order
   * and have pairwise distinct combinations.
   */
  lemma SurvivingBindingsSpec(registered: seq<KeyBinding>)
    ensures forall k :: k in SurvivingBindings(registered)
                        <==> k in registered && !IsHidden(k)
                             && FirstWithKey(registered, Combination, k.combination) == Some(k)
    ensures IsSubsequence(SurvivingBindings(registered), registered)
    ensures DistinctKeys(SurvivingBindings(registered), Combination)
  {
    var d := RemoveDuplicatesByAttr(registered, Combination);
    RemoveDuplicatesByAttrKeepsFirst(registered, Combination);
    RemoveDuplicatesByAttrDistinct(registered, Combination);
    SubsequenceTransitive(SurvivingBindings(registered), d, registered);
    var r := SurvivingBindings(registered);
    forall i, j | 0 <= i < j < |r| ensures r[i].combination != r[j].combination {
      assert r[i] in r && r[j] in r;
      assert FirstWithKey(registered, Combination, r[i].combination) == Some(r[i]);
      assert FirstWithKey(registered, Combination, r[j].combination) == Some(r[j]);
      if r[i] == r[j] {
        SubsequenceDistinctPositions(r, d, i, j);
      }
    }
  }

  /**
   * In a subsequence of a sequence with distinct values, two positions hold
   * different elements.
   */
  lemma {:induction false} SubsequenceDistinctPositions<T>(r: seq<T>, d: seq<T>, i: nat, j: nat)
    requires IsSubsequence(r, d)
    requires forall p, q :: 0 <= p < q < |d| ==> d[p] != d[q]
    requires i < j < |r|
    ensures r[i] != r[j]
    decreases |d|
  {
    assert d != [];
    var t := d[1..];
    assert forall p, q :: 0 <= p < q < |t| ==> t[p] != t[q] by {
      forall p, q | 0 <= p < q < |t| ensures t[p] != t[q] {
        assert t[p] == d[p + 1] && t[q] == d[q + 1];
      }
    }
    if r[0] == d[0] && IsSubsequence(r[1..], t) {
      if i == 0 {
        SubsequenceMembers(r[1..], t);
        assert r[j] == r[1..][j - 1];
        assert r[1..][j - 1] in r[1..];
        forall q | 0 <= q < |t| ensures t[q] != d[0] {
          assert t[q] == d[q + 1];
        }
      } else {
        SubsequenceDistinctPositions(r[1..], t, i - 1, j - 1);
      }
    } else {
      SubsequenceDistinctPositions(r, t, i, j);
    }
  }

  lemma {:induction false} SubsequenceMembers<T>(r: seq<T>, s: seq<T>)
    requires IsSubsequence(r, s)
    ensures forall x :: x in r ==> x in s
    decreases |s|
  {
    if r != [] {
      if r[0] == s[0] && IsSubsequence(r[1..], s[1..]) {
        SubsequenceMembers(r[1..], s[1..]);
        assert forall x :: x in r ==> x == r[0] || x in r[1..];
      } else {
        SubsequenceMembers(r, s[1..]);
      }
      assert forall x :: x in s[1..] ==> x in s;
    }
  }

  /**
   * Deduplication runs before the hidden filter: when the first binding for
   * a combination is hidden, no binding with that combination survives, even
   * a visible one registered later.
   */
  lemma HiddenFirstSuppresses(registered: seq<KeyBinding>, c: string, h: KeyBinding)
    requires FirstWithKey(registered, Combination, c) == Some(h) && IsHidden(h)
    ensures forall k :: k in SurvivingBindings(registered) ==> k.combination != c && !IsHidden(k)
  {
    SurvivingBindingsSpec(registered);
  }

  // ---------------------------------------------------------------------
  // Grouping by category
  // ---------------------------------------------------------------------

  /** What a category's collection holds for one binding. */
  datatype Item = Item(labelText: Option<string>, combination: string)

  function ItemOf(e: Entry): Item
  {
    Item(e.labelText, e.combination)
  }

  /**
   * The `Map` the reduce builds: its keys in insertion order, and the
   * collection of each key. The collections are sequences because every
   * added object literal is a new object, which a `Set` never merges.
   */
  datatype Grouping = Grouping(categories: seq<string>, items: map<string, seq<Item>>)

  /** The categories of `es` in the order the reduce first meets them. */
  function CategoryOrder(es: seq<Entry>): seq<string>
  {
    if es == [] then []
    else
      var prev := CategoryOrder(es[..|es| - 1]);
      var c := es[|es| - 1].category;
      if c in prev then prev else prev + [c]
  }

  /** The items of the entries of category `c`, in input order. */
  function ItemsOf(es: seq<Entry>, c: string): seq<Item>
  {
    if es == [] then []
    else
      var last := es[|es| - 1];
      ItemsOf(es[..|es| - 1], c) + (if last.category == c then [ItemOf(last)] else [])
  }

  function Categories(es: seq<Entry>): (cs: seq<string>)
    ensures |cs| == |es| && forall i :: 0 <= i < |es| ==> cs[i] == es[i].category
  {
    seq(|es|, i requires 0 <= i < |es| => es[i].category)
  }

  function Identity(c: string): string
  {
    c
  }

  /** A category is listed exactly when some entry has it, and then its collection is not empty. */
  lemma {:induction false} CategoryOrderMembers(es: seq<Entry>, c: string)
    ensures c in CategoryOrder(es) <==> ItemsOf(es, c) != []
    ensures c in CategoryOrder(es) <==> c in Categories(es)
  {
    if es != [] {
      var init := es[..|es| - 1];
      CategoryOrderMembers(init, c);
      assert Categories(es) == Categories(init) + [es[|es| - 1].category];
    }
  }

  /** The scan's result grows by one element at most when one element is appended. */
  lemma {:induction false} FirstOccurrencesSnoc<T, K>(s: seq<T>, key: T -> K, seen: set<K>, x: T)
    ensures FirstOccurrences(s + [x], key, seen)
            == FirstOccurrences(s, key, seen) + (if key(x) in seen + KeySet(s, key) then [] else [x])
  {
    if s == [] {
      assert [x][1..] == [];
    } else {
      assert (s + [x])[0] == s[0] && (s + [x])[1..] == s[1..] + [x];
      assert KeySet(s, key) == {key(s[0])} + KeySet(s[1..], key) by {
        assert forall y :: y in s <==> y == s[0] || y in s[1..];
      }
      if key(s[0]) in seen {
        FirstOccurrencesSnoc(s[1..], key, seen, x);
      } else {
        FirstOccurrencesSnoc(s[1..], key, seen + {key(s[0])}, x);
      }
    }
  }

  /**
   * The category order is the category list with duplicates removed: keys
   * appear in first-appearance order, each once.
   */
  lemma {:induction false} CategoryOrderIsFirstAppearance(es: seq<Entry>)
    ensures CategoryOrder(es) == RemoveDuplicatesByAttr(Categories(es), Identity)
  {
    RemoveDuplicatesByAttrIsFirstOccurrences(Categories(es), Identity);
    if es != [] {
      var init := es[..|es| - 1];
      var c := es[|es| - 1].category;
      CategoryOrderIsFirstAppearance(init);
      RemoveDuplicatesByAttrIsFirstOccurrences(Categories(init), Identity);
      assert Categories(es) == Categories(init) + [c];
      FirstOccurrencesSnoc(Categories(init), Identity, {}, c);
      FirstOccurrencesKeySet(Categories(init), Identity, {});
      var r := FirstOccurrences(Categories(init), Identity, {});
      assert c in r <==> c in KeySet(r, Identity) by {
        assert forall y :: y in r ==> Identity(y) == y;
      }
      assert c in KeySet(Categories(init), Identity) <==> c in Categories(init) by {
        assert forall y :: y in Categories(init) ==> Identity(y) == y;
      }
    }
  }

  /** The sizes of the collections of the categories `cs`. */
  function TotalItems(cs: seq<string>, es: seq<Entry>): nat
  {
    if cs == [] then 0 else |ItemsOf(es, cs[0])| + TotalItems(cs[1..], es)
  }

  lemma {:induction false} TotalItemsSnocEntry(cs: seq<string>, es: seq<Entry>, e: Entry)
    requires forall i, j :: 0 <= i < j < |cs| ==> cs[i] != cs[j]
    ensures TotalItems(cs, es + [e]) == TotalItems(cs, es) + (if e.category in cs then 1 else 0)
  {
    assert (es + [e])[..|es + [e]| - 1] == es;
    if cs != [] {
      var t := cs[1..];
      forall i, j | 0 <= i < j < |t| ensures t[i] != t[j] {
        assert t[i] == cs[i + 1] && t[j] == cs[j + 1];
      }
      TotalItemsSnocEntry(t, es, e);
      assert e.category in cs <==> e.category == cs[0] || e.category in t;
      if e.category == cs[0] {
        assert forall j :: 0 <= j < |t| ==> t[j] == cs[j + 1];
        assert e.category !in t;
      }
    }
  }

  lemma {:induction false} TotalItemsSnocCategory(cs: seq<string>, c: string, es: seq<Entry>)
    ensures TotalItems(cs + [c], es) == TotalItems(cs, es) + |ItemsOf(es, c)|
  {
    if cs == [] {
      assert ([c])[1..] == [];
    } else {
      assert (cs + [c])[1..] == cs[1..] + [c];
      TotalItemsSnocCategory(cs[1..], c, es);
    }
  }

  lemma {:induction false} CategoryOrderDistinct(es: seq<Entry>)
    ensures DistinctKeys(CategoryOrder(es), Identity)
  {
    if es != [] {
      var prev := CategoryOrder(es[..|es| - 1]);
      var c := es[|es| - 1].category;
      CategoryOrderDistinct(es[..|es| - 1]);
      if c !in prev {
        var cs := prev + [c];
        forall i, j | 0 <= i < j < |cs| ensures cs[i] != cs[j] {
          assert cs[i] == prev[i] && prev[i] in prev;
          if j < |prev| {
            assert cs[j] == prev[j];
          }
        }
      }
    }
  }

  /**
   * Grouping puts every entry into exactly one collection, that of its own
   * category, keeping input order: the collections together hold as many
   * items as there are entries.
   */
  lemma {:induction false} GroupingPartitions(es: seq<Entry>)
    ensures TotalItems(CategoryOrder(es), es) == |es|
    ensures forall i :: 0 <= i < |es| ==> ItemOf(es[i]) in ItemsOf(es, es[i].category)
  {
    if es != [] {
      var init := es[..|es| - 1];
      var e := es[|es| - 1];
      assert es == init + [e];
      GroupingPartitions(init);
      CategoryOrderDistinct(init);
      var prev := CategoryOrder(init);
      TotalItemsSnocEntry(prev, init, e);
      if e.category !in prev {
        TotalItemsSnocCategory(prev, e.category, es);
        CategoryOrderMembers(init, e.category);
      }
      forall i | 0 <= i < |es| ensures ItemOf(es[i]) in ItemsOf(es, es[i].category) {
        if i < |init| {
          assert es[i] == init[i];
        }
      }
    }
  }

  /** The `reduce` over the entries, mutating the `Map` it accumulates into. */
  method GroupByCategory(es: seq<Entry>) returns (g: Grouping)
    ensures g.categories == CategoryOrder(es)
    ensures forall c :: c in g.items <==> c in g.categories
    ensures forall c :: c in g.items ==> g.items[c] == ItemsOf(es, c) && g.items[c] != []
  {
    var categories: seq<string> := [];
    var items: map<string, seq<Item>> := map[];
    for i := 0 to |es|
      invariant categories == CategoryOrder(es[..i])
      invariant forall c :: c in items <==> c in categories
      invariant forall c :: c in items ==> items[c] == ItemsOf(es[..i], c)
    {
      var e := es[i];
      assert es[..i + 1][..i] == es[..i] && es[..i + 1][i] == e;
      if e.category !in items {
        CategoryOrderMembers(es[..i], e.category);
        items := items[e.category := [ItemOf(e)]];
        categories := categories + [e.category];
      } else {
        items := items[e.category := items[e.category] + [ItemOf(e)]];
      }
    }
    assert es[..|es|] == es;
    g := Grouping(categories, items);
    forall c | c in g.items ensures g.items[c] != [] {
      CategoryOrderMembers(es, c);
    }
  }

  /**
   * The `keyBindings` memo: the registered shortcuts, deduplicated, without
   * the hidden ones, rewritten for the operating system, grouped by category.
   */
  method KeyBindings(registered: seq<KeyBinding>, context: EditorContext) returns (g: Grouping)
    ensures g.categories == CategoryOrder(HelpEntries(registered, context))
    ensures forall c :: c in g.items <==> c in g.categories
    ensures forall c :: c in g.items ==> g.items[c] == ItemsOf(HelpEntries(registered, context), c)
    ensures forall c :: c in g.items ==> g.items[c] != []
  {
    g := GroupByCategory(HelpEntries(registered, context));
  }

  // ---------------------------------------------------------------------
  // formatKeyBindingCombination
  // ---------------------------------------------------------------------

  /** `\w` in a regular expression without the `u` flag: ASCII letters, digits and `_`. */
  predicate IsWordChar(c: char)
  {
    ('a' <= c <= 'z') || ('A' <= c <= 'Z') || ('0' <= c <= '9') || c == '_'
  }

  /** `toUpperCase` on the characters `\w` matches: only `a`-`z` change. */
  function ToUpperCase(c: char): char
    requires IsWordChar(c)
  {
    if 'a' <= c <= 'z' then (c as int - 32) as char else c
  }

  /** `w.replace(/^\w/, c => c.toUpperCase())`. */
  function CapitalizeFirst(w: string): string
  {
    if |w| > 0 && IsWordChar(w[0]) then [ToUpperCase(w[0])] + w[1..] else w
  }

  /**
   * Capitalising changes at most the first character, and changes it only
   * when it is a lower-case ASCII letter, into its upper-case form.
   */
  lemma CapitalizeFirstSpec(w: string)
    ensures |CapitalizeFirst(w)| == |w|
    ensures forall k :: 1 <= k < |w| ==> CapitalizeFirst(w)[k] == w[k]
    ensures |w| > 0 ==> (CapitalizeFirst(w)[0] != w[0] <==> 'a' <= w[0] <= 'z')
    ensures |w| > 0 && 'a' <= w[0] <= 'z' ==> CapitalizeFirst(w)[0] as int == w[0] as int - 32
    ensures '+' !in w ==> '+' !in CapitalizeFirst(w)
  {
  }

  function CapitalizeAll(ws: seq<string>): (r: seq<string>)
    ensures |r| == |ws| && forall i :: 0 <= i < |ws| ==> r[i] == CapitalizeFirst(ws[i])
  {
    seq(|ws|, i requires 0 <= i < |ws| => CapitalizeFirst(ws[i]))
  }

  /**
   * Capitalising the pieces keeps their number, and each piece keeps its
   * length, its characters after the first and its freedom from `+`.
   */
  lemma CapitalizeAllSpec(ws: seq<string>)
    ensures |CapitalizeAll(ws)| == |ws|
    ensures forall i :: 0 <= i < |ws| ==>
              |CapitalizeAll(ws)[i]| == |ws[i]| && (|ws[i]| > 0 ==> CapitalizeAll(ws)[i][1..] == ws[i][1..])
    ensures forall i :: 0 <= i < |ws| && '+' !in ws[i] ==> '+' !in CapitalizeAll(ws)[i]
  {
    forall i | 0 <= i < |ws|
      ensures |CapitalizeAll(ws)[i]| == |ws[i]| && (|ws[i]| > 0 ==> CapitalizeAll(ws)[i][1..] == ws[i][1..])
      ensures '+' !in ws[i] ==> '+' !in CapitalizeAll(ws)[i]
    {
      CapitalizeFirstSpec(ws[i]);
    }
  }

  /** `formatKeyBindingCombination`: split on `+`, capitalise each piece, join with `" + "`. */
  function FormatKeyBindingCombination(combination: string): string
  {
    Join(CapitalizeAll(Split(combination, "+")), " + ")
  }

  /**
   * Splitting the formatted text on `" + "` gives back the pieces of the
   * combination, each capitalised: as many pieces as the combination has.
   */
  lemma FormatKeyBindingCombinationPieces(combination: string)
    ensures Split(FormatKeyBindingCombination(combination), " + ") == CapitalizeAll(Split(combination, "+"))
    ensures |Split(FormatKeyBindingCombination(combination), " + ")| == |Split(combination, "+")|
  {
    var pieces := Split(combination, "+");
    var caps := CapitalizeAll(pieces);
    SplitPiecesFree(combination, "+");
    forall k | 0 <= k < |caps| ensures '+' !in caps[k] {
      assert pieces[k] in pieces;
      NoCharNoMatch(pieces[k], '+');
      CapitalizeFirstSpec(pieces[k]);
    }
    forall k | 0 <= k < |caps| ensures EndsAtSeparator(caps[k], " + ") && FindFirst(caps[k], " + ").None? {
      EndsAtSpacedPlus(caps[k]);
    }
    SplitJoin(caps, " + ");
  }

  lemma FormatKeyBindingCombinationExample()
    ensures FormatKeyBindingCombination("shift+/") == "Shift + /"
  {
    assert "shift+/" == "shift" + ['+'] + "/";
    SplitAtFirst("shift", "/", '+');
    SplitNoSeparator("/", '+');
    assert IsWordChar('s') && ToUpperCase('s') == 'S';
    assert CapitalizeFirst("shift") == "Shift";
    assert !IsWordChar('/') && CapitalizeFirst("/") == "/";
    var caps := CapitalizeAll(["shift", "/"]);
    assert caps[0] == "Shift" && caps[1] == "/";
    assert caps == ["Shift", "/"];
  }
}
