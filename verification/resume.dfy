/** The resume document every other module works on, and the ordering of its
    sections.

    A document has an optional header (name, title, contact fields, picture,
    social links) and an optional list of sections; each section carries an
    id, a title, markdown content, a numeric `order` and an optional icon key.
    Every view and export sorts the sections with
    `sections.sort((a, b) => a.order - b.order)`, which ECMAScript requires to
    be stable: `SortByOrder` is that sort. */
module Resume {
  import opened Wrappers

  datatype SocialLinks = SocialLinks(
    github: Option<string>,
    linkedin: Option<string>,
    twitter: Option<string>,
    website: Option<string>)

  datatype Header = Header(
    name: Option<string>,
    title: Option<string>,
    phone: Option<string>,
    email: Option<string>,
    location: Option<string>,
    profilePicture: Option<string>,
    socialLinks: Option<SocialLinks>)

  datatype Section = Section(
    id: string,
    title: string,
    content: string,
    order: int,
    icon: Option<string>)

  datatype Document = Document(header: Option<Header>, sections: Option<seq<Section>>)

  /** JavaScript truthiness of an optional string: present and non-empty. */
  predicate Truthy(o: Option<string>) {
    o.Some? && o.value != ""
  }

  /** `o || fallback` for an optional string. */
  function OrElse(o: Option<string>, fallback: string): (r: string)
    ensures Truthy(o) ==> r == o.value
    ensures !Truthy(o) ==> r == fallback
  {
    if Truthy(o) then o.value else fallback
  }

  // ---------------------------------------------------------------------------
  // Sorting by `order`
  // ---------------------------------------------------------------------------

  /** Ascending by `order`. */
  predicate SortedByOrder(s: seq<Section>) {
    forall i, j | 0 <= i < j < |s| :: s[i].order <= s[j].order
  }

  /** The sections of `s` whose `order` is `k`, in their relative order in
      `s`. A sort is stable when it keeps every one of these unchanged. */
  function WithOrder(s: seq<Section>, k: int): seq<Section>
  {
    if |s| == 0 then []
    else WithOrder(s[..|s| - 1], k) + (if s[|s| - 1].order == k then [s[|s| - 1]] else [])
  }

  lemma WithOrderAppend(s: seq<Section>, x: Section, k: int)
    ensures WithOrder(s + [x], k) == WithOrder(s, k) + (if x.order == k then [x] else [])
  {
    assert (s + [x])[..|s|] == s;
  }

  /** Inserts `x` into the sorted `t` after every section whose order is not
      greater than `x`'s, which is what keeps equal orders in input order. */
  function Insert(t: seq<Section>, x: Section): (r: seq<Section>)
    requires SortedByOrder(t)
    ensures SortedByOrder(r)
    ensures |r| == |t| + 1
    ensures forall i | 0 <= i < |r| :: r[i].order <= x.order || (|t| > 0 && r[i].order <= t[|t| - 1].order)
    ensures multiset(r) == multiset(t) + multiset{x}
  {
    if |t| == 0 || t[|t| - 1].order <= x.order then t + [x]
    else
      var t', last := t[..|t| - 1], t[|t| - 1];
      assert t == t' + [last];
      var r' := Insert(t', x);
      assert forall i | 0 <= i < |r'| :: r'[i].order <= last.order;
      r' + [last]
  }

  /** Insertion adds `x` at the end of its own group of equal orders and
      leaves every other group as it was. */
  lemma {:induction false} InsertWithOrder(t: seq<Section>, x: Section, k: int)
    requires SortedByOrder(t)
    ensures WithOrder(Insert(t, x), k) == WithOrder(t, k) + (if x.order == k then [x] else [])
  {
    if |t| == 0 || t[|t| - 1].order <= x.order {
      WithOrderAppend(t, x, k);
    } else {
      var last := t[|t| - 1];
      var t' := t[..|t| - 1];
      assert t == t' + [last];
      var r' := Insert(t', x);
      assert Insert(t, x) == r' + [last];
      InsertWithOrder(t', x, k);
      WithOrderAppend(r', last, k);
      WithOrderAppend(t', last, k);
      if k == x.order {
        assert WithOrder(t, k) == WithOrder(t', k);
      } else {
        assert WithOrder(r', k) == WithOrder(t', k);
      }
    }
  }

  /** `sections.sort((a, b) => a.order - b.order)`: ascending by `order`, a
      permutation of the input, and stable (sections with equal orders keep
      their input order). */
  function SortByOrder(s: seq<Section>): (r: seq<Section>)
    ensures SortedByOrder(r)
    ensures |r| == |s|
    ensures multiset(r) == multiset(s)
  {
    if |s| == 0 then []
    else
      var s' := s[..|s| - 1];
      assert s == s' + [s[|s| - 1]];
      Insert(SortByOrder(s'), s[|s| - 1])
  }

  /** The sort is stable: the sections of every order keep their relative
      order. */
  lemma {:induction false} SortByOrderStable(s: seq<Section>, k: int)
    ensures WithOrder(SortByOrder(s), k) == WithOrder(s, k)
  {
    if |s| > 0 {
      var s', x := s[..|s| - 1], s[|s| - 1];
      var r' := SortByOrder(s');
      var tail := if x.order == k then [x] else [];
      calc {
        WithOrder(SortByOrder(s), k);
        WithOrder(Insert(r', x), k);
        { InsertWithOrder(r', x, k); }
        WithOrder(r', k) + tail;
        { SortByOrderStable(s', k); }
        WithOrder(s', k) + tail;
        WithOrder(s, k);
      }
    }
  }

  /** A list already in ascending order is left as it is. */
  lemma {:induction false} SortSortedIsIdentity(s: seq<Section>)
    requires SortedByOrder(s)
    ensures SortByOrder(s) == s
  {
    if |s| > 0 {
      var s', x := s[..|s| - 1], s[|s| - 1];
      assert SortedByOrder(s');
      calc {
        SortByOrder(s);
        Insert(SortByOrder(s'), x);
        { SortSortedIsIdentity(s'); }
        Insert(s', x);
        { InsertAtEnd(s', x); }
        s' + [x];
        s;
      }
    }
  }

  lemma InsertAtEnd(t: seq<Section>, x: Section)
    requires SortedByOrder(t)
    requires |t| == 0 || t[|t| - 1].order <= x.order
    ensures Insert(t, x) == t + [x]
  {
  }

  /** The stable sort is the only ascending arrangement that keeps the
      relative order of every group of equal orders: any such `r` equals
      `SortByOrder(s)`. */
  lemma StableSortUnique(s: seq<Section>, r: seq<Section>)
    requires SortedByOrder(r)
    requires forall k :: WithOrder(r, k) == WithOrder(s, k)
    ensures r == SortByOrder(s)
  {
    forall k ensures WithOrder(SortByOrder(s), k) == WithOrder(s, k) {
      SortByOrderStable(s, k);
    }
    SortedUnique(r, SortByOrder(s));
  }

  lemma WithOrderNonEmpty(s: seq<Section>, i: nat)
    requires i < |s|
    ensures |WithOrder(s, s[i].order)| > 0
  {
    if i < |s| - 1 {
      WithOrderNonEmpty(s[..|s| - 1], i);
    }
  }

  /** In an ascending list, no section has an order above the last one's. */
  lemma WithOrderAboveLast(s: seq<Section>, k: int)
    requires SortedByOrder(s)
    ensures |s| > 0 && k > s[|s| - 1].order ==> WithOrder(s, k) == []
  {
    if |s| > 1 && k > s[|s| - 1].order {
      WithOrderAboveLast(s[..|s| - 1], k);
    }
  }

  lemma {:induction false} SortedUnique(a: seq<Section>, b: seq<Section>)
    requires SortedByOrder(a) && SortedByOrder(b)
    requires forall k :: WithOrder(a, k) == WithOrder(b, k)
    ensures a == b
    decreases |a|
  {
    EmptyIffNoGroups(a, b);
    if |a| > 0 {
      LastSectionsEqual(a, b);
      var x := a[|a| - 1];
      var a', b' := a[..|a| - 1], b[..|b| - 1];
      assert a == a' + [x] && b == b' + [x];
      forall k ensures WithOrder(a', k) == WithOrder(b', k) {
        DropLastGroup(a', b', x, k);
      }
      SortedUnique(a', b');
    }
  }

  /** Lists with the same groups are both empty or both not. */
  lemma EmptyIffNoGroups(a: seq<Section>, b: seq<Section>)
    requires forall k :: WithOrder(a, k) == WithOrder(b, k)
    ensures |a| == 0 <==> |b| == 0
  {
    if |a| > 0 {
      WithOrderNonEmpty(a, |a| - 1);
    }
    if |b| > 0 {
      WithOrderNonEmpty(b, |b| - 1);
    }
  }

  /** Ascending lists with the same groups end with the same order. */
  lemma LastOrdersEqual(a: seq<Section>, b: seq<Section>)
    requires SortedByOrder(a) && SortedByOrder(b) && |a| > 0 && |b| > 0
    requires forall k :: WithOrder(a, k) == WithOrder(b, k)
    ensures a[|a| - 1].order == b[|b| - 1].order
  {
    var x, y := a[|a| - 1], b[|b| - 1];
    WithOrderNonEmpty(a, |a| - 1);
    WithOrderNonEmpty(b, |b| - 1);
    WithOrderAboveLast(a, y.order);
    WithOrderAboveLast(b, x.order);
    assert WithOrder(a, y.order) == WithOrder(b, y.order);
    assert WithOrder(a, x.order) == WithOrder(b, x.order);
  }

  /** Ascending lists with the same groups end with the same section. */
  lemma LastSectionsEqual(a: seq<Section>, b: seq<Section>)
    requires SortedByOrder(a) && SortedByOrder(b) && |a| > 0 && |b| > 0
    requires forall k :: WithOrder(a, k) == WithOrder(b, k)
    ensures a[|a| - 1] == b[|b| - 1]
  {
    LastOrdersEqual(a, b);
    var k := a[|a| - 1].order;
    var w := WithOrder(a, k);
    assert w == WithOrder(b, k);
    assert w == WithOrder(a[..|a| - 1], k) + [a[|a| - 1]];
    assert w == WithOrder(b[..|b| - 1], k) + [b[|b| - 1]];
    assert w[|w| - 1] == a[|a| - 1];
    assert w[|w| - 1] == b[|b| - 1];
  }

  /** Removing the same last section from two lists with equal groups of
      order `k` leaves equal groups. */
  lemma DropLastGroup(a: seq<Section>, b: seq<Section>, x: Section, k: int)
    requires WithOrder(a + [x], k) == WithOrder(b + [x], k)
    ensures WithOrder(a, k) == WithOrder(b, k)
  {
    WithOrderAppend(a, x, k);
    WithOrderAppend(b, x, k);
    if k == x.order {
      var w := WithOrder(a + [x], k);
      assert WithOrder(a, k) == w[..|w| - 1];
      assert WithOrder(b, k) == w[..|w| - 1];
    }
  }

  /** Lists with the same groups of equal orders sort to the same list:
      the sorted result depends only on the orders and on the relative
      order of sections that share one. */
  lemma SameGroupsSameSort(a: seq<Section>, b: seq<Section>)
    requires forall k :: WithOrder(a, k) == WithOrder(b, k)
    ensures SortByOrder(a) == SortByOrder(b)
  {
    forall k ensures WithOrder(SortByOrder(a), k) == WithOrder(b, k) {
      SortByOrderStable(a, k);
    }
    StableSortUnique(b, SortByOrder(a));
  }

  /** The sections of a document in the order every view and export shows
      them; a document without a section list has none. */
  function SortedSections(doc: Document): (r: seq<Section>)
    ensures doc.sections.None? ==> r == []
    ensures doc.sections.Some? ==> r == SortByOrder(doc.sections.value)
  {
    if doc.sections.Some? then SortByOrder(doc.sections.value) else []
  }

  /** `resumeData.header?.name || 'Resume'`: the stem of both download
      names. A missing header counts as a missing name. */
  function FileStem(doc: Document): (r: string)
    ensures doc.header.Some? && Truthy(doc.header.value.name) ==> r == doc.header.value.name.value
    ensures !(doc.header.Some? && Truthy(doc.header.value.name)) ==> r == "Resume"
  {
    OrElse(if doc.header.Some? then doc.header.value.name else None, "Resume")
  }
}
