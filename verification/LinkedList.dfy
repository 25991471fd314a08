/** The singly linked list of src/util/list_itr.c with its built-in cursor and mark, and the count/value
    list kept in one.  `nodes` is the list as a sequence and `pos` the place of the cursor in it. */
module LinkedList {
  import opened RunLength

  class Entry<T> {
    var next: Entry?<T>
    var content: T

    /** list_alloc_entry */
    constructor (content: T)
      ensures this.content == content
    {
      next := null;
      this.content := content;
    }
  }

  /** s without its element at place k. */
  ghost function Without<T>(s: seq<T>, k: nat): (r: seq<T>)
    requires k < |s|
    ensures |r| == |s| - 1
    ensures forall i | 0 <= i < k :: r[i] == s[i]
    ensures forall i | k < i < |s| :: s[i] == r[i - 1]
  {
    s[..k] + s[k + 1..]
  }

  /** The entry at place i; none behind the last one. */
  ghost function EntryAt<T>(ns: seq<Entry<T>>, i: nat): Entry?<T> {
    if i < |ns| then ns[i] else null
  }

  ghost function LastEntry<T>(ns: seq<Entry<T>>): Entry?<T> {
    if ns == [] then null else ns[|ns| - 1]
  }

  /** Where the first, the last and any other entry are found when the one at k is gone. */
  lemma EntriesWithout<T>(ns: seq<Entry<T>>, k: nat, i: nat)
    requires k < |ns| && i <= |ns|
    ensures EntryAt(Without(ns, k), if k < i then i - 1 else i) == EntryAt(ns, if i == k then k + 1 else i)
    ensures LastEntry(Without(ns, k)) == if k < |ns| - 1 then LastEntry(ns) else if k == 0 then null else ns[k - 1]
  {
  }

  ghost predicate Distinct<T>(ns: seq<Entry<T>>) {
    forall i, j | 0 <= i < j < |ns| :: ns[i] != ns[j]
  }

  /** Every entry points to the one after it. */
  ghost predicate Linked<T>(ns: seq<Entry<T>>)
    reads ns
  {
    && (forall i, j | 0 <= i && j == i + 1 && j < |ns| :: ns[i].next == ns[j])
    && (ns != [] ==> ns[|ns| - 1].next == null)
  }

  class List<T> {
    var hdr: Entry?<T>
    var tail: Entry?<T>
    var entryCount: nat
    var cur: Entry?<T>
    var curMark: Entry?<T>
    ghost var nodes: seq<Entry<T>>
    ghost var pos: nat

    ghost function At(i: nat): Entry?<T>
      reads this
    {
      EntryAt(nodes, i)
    }

    /** The place of an entry of the list. */
    ghost function IndexOf(entry: Entry<T>): (i: nat)
      requires entry in nodes
      reads this
      ensures i < |nodes| && nodes[i] == entry
    {
      var i :| 0 <= i < |nodes| && nodes[i] == entry; i
    }

    ghost predicate Valid()
      reads this, nodes
    {
      && Distinct(nodes) && Linked(nodes) && entryCount == |nodes|
      && hdr == At(0) && tail == LastEntry(nodes)
      && pos <= |nodes| && cur == At(pos)
    }

    ghost function Contents(): (s: seq<T>)
      reads this, nodes
      ensures |s| == |nodes| && forall i | 0 <= i < |nodes| :: s[i] == nodes[i].content
    {
      seq(|nodes|, i requires 0 <= i < |nodes| reads this, nodes => nodes[i].content)
    }

    /** list_create */
    constructor ()
      ensures Valid() && nodes == [] && curMark == null
    {
      hdr, tail, cur, curMark, entryCount, nodes, pos := null, null, null, null, 0, [], 0;
    }

    /** list_add_entry: a cursor that has run out stays out, and does not see the new entry. */
    method AddEntry(entry: Entry<T>)
      requires Valid() && entry !in nodes
      modifies this, entry`next, nodes`next
      ensures Valid() && nodes == old(nodes) + [entry] && curMark == old(curMark)
      ensures pos == if old(pos) == |old(nodes)| then |nodes| else old(pos)
    {
      entry.next := null;
      if tail != null {
        tail.next := entry;
      } else {
        hdr := entry;
      }
      tail := entry;
      entryCount := entryCount + 1;
      if pos == |nodes| { pos := pos + 1; }
      nodes := nodes + [entry];
    }

    /** The search of list_remove_entry: the entry and the one before it. */
    method Find(entry: Entry<T>) returns (pre: Entry?<T>, p: Entry?<T>)
      requires Valid()
      ensures if entry in nodes then p == entry
        && pre == (if IndexOf(entry) == 0 then null else nodes[IndexOf(entry) - 1])
              else p == null
    {
      pre, p := null, hdr;
      ghost var k := 0;
      while p != null && p != entry
        invariant 0 <= k <= |nodes| && p == At(k)
        invariant pre == if k == 0 then null else nodes[k - 1]
        invariant forall j | 0 <= j < k :: nodes[j] != entry
        decreases |nodes| - k
      {
        pre := p;
        p := p.next;
        k := k + 1;
      }
    }

    /** list_remove_entry: the entry is unlinked wherever it stands, and a cursor on it moves on; the
        mark is not looked at. */
    method RemoveEntry(entry: Entry<T>) returns (ok: bool)
      requires Valid()
      modifies this, nodes`next
      ensures Valid() && (ok <==> entry in old(nodes)) && curMark == old(curMark)
      ensures !ok ==> nodes == old(nodes) && pos == old(pos)
      ensures ok ==> nodes == Without(old(nodes), old(IndexOf(entry)))
      ensures ok ==> pos == if old(IndexOf(entry)) < old(pos) then old(pos) - 1 else old(pos)
    {
      var pre, p := Find(entry);
      if p == null { return false; }
      Unlink(pre, p, IndexOf(entry));
      return true;
    }

    /** Takes the entry at place k out of the chain. */
    method Unchain(pre: Entry?<T>, p: Entry<T>, ghost k: nat)
      requires Valid() && k < |nodes| && p == nodes[k] && pre == if k == 0 then null else nodes[k - 1]
      modifies `hdr, `nodes, nodes`next
      ensures nodes == Without(old(nodes), k)
      ensures Distinct(nodes) && Linked(nodes) && hdr == At(0) && p.next == old(p.next)
    {
      nodes := Without(nodes, k);
      if pre != null {
        pre.next := p.next;
      } else {
        hdr := p.next;
      }
    }

    /** Tail, cursor and count after the entry that stood at place k of `was` is out of the chain. */
    method Settle(pre: Entry?<T>, p: Entry<T>, ghost k: nat, ghost was: seq<Entry<T>>)
      requires k < |was| && nodes == Without(was, k) && Distinct(nodes) && Linked(nodes) && hdr == At(0)
      requires pos <= |was| && cur == EntryAt(was, pos) && tail == LastEntry(was) && entryCount == |was|
        && Distinct(was)
      requires p == was[k] && p.next == EntryAt(was, k + 1) && pre == if k == 0 then null else was[k - 1]
      modifies `tail, `cur, `entryCount, `pos
      ensures Valid() && pos == if k < old(pos) then old(pos) - 1 else old(pos)
    {
      hide Linked;
      EntriesWithout(was, k, pos);
      if p == tail { tail := pre; }
      if cur == p { cur := p.next; }
      entryCount := entryCount - 1;
      if k < pos { pos := pos - 1; }
    }

    method Unlink(pre: Entry?<T>, p: Entry<T>, ghost k: nat)
      requires Valid() && k < |nodes| && p == nodes[k] && pre == if k == 0 then null else nodes[k - 1]
      modifies this, nodes`next
      ensures Valid() && curMark == old(curMark) && nodes == Without(old(nodes), k)
      ensures pos == if k < old(pos) then old(pos) - 1 else old(pos)
    {
      ghost var was := nodes;
      Unchain(pre, p, k);
      Settle(pre, p, k, was);
    }

    /** list_delete_first_entry */
    method DeleteFirstEntry()
      requires Valid()
      modifies this
      ensures Valid() && curMark == old(curMark)
      ensures nodes == if old(nodes) == [] then [] else old(nodes)[1..]
      ensures pos == if old(pos) == 0 then 0 else old(pos) - 1
    {
      if hdr == null { return; }
      var entry := hdr;
      hdr := hdr.next;
      if hdr == null { tail := null; }
      if cur == entry { cur := hdr; }
      entryCount := entryCount - 1;
      if pos > 0 { pos := pos - 1; }
      nodes := nodes[1..];
    }

    /** list_it_init */
    method ItInit()
      requires Valid()
      modifies `cur, `curMark, `pos
      ensures Valid() && pos == 0 && curMark == null
    {
      cur, curMark, pos := hdr, null, 0;
    }

    /** list_it_get_entry */
    method ItGetEntry() returns (entry: Entry?<T>)
      requires Valid()
      modifies `cur, `pos
      ensures Valid()
      ensures entry == old(At(pos)) && pos == if old(pos) < |nodes| then old(pos) + 1 else old(pos)
    {
      if cur == null { return null; }
      entry := cur;
      cur := entry.next;
      pos := pos + 1;
    }

    /** The mark stands on an entry of the list. */
    ghost predicate MarkedAt(i: nat)
      reads this
    {
      i < |nodes| && curMark == nodes[i]
    }

    /** list_it_save_mark */
    method ItSaveMark()
      requires Valid() && curMark == null
      modifies `curMark
      ensures Valid() && (if pos < |nodes| then MarkedAt(pos) else curMark == null)
    {
      curMark := cur;
    }

    /** list_it_goto_mark: back to the place of the mark, or to the end when the mark was saved there. */
    method ItGotoMark(ghost i: nat)
      requires Valid() && (MarkedAt(i) || (curMark == null && cur == null && i == |nodes|))
      modifies `cur, `curMark, `pos
      ensures Valid() && pos == i && curMark == null
    {
      cur, curMark, pos := curMark, null, i;
    }
  }

  /** A walk with the built-in cursor sees every entry once, in order, whatever was read before. */
  method Walk<T>(lst: List<T>) returns (seen: seq<Entry<T>>)
    requires lst.Valid()
    modifies lst
    ensures lst.Valid() && lst.nodes == old(lst.nodes) && seen == lst.nodes
  {
    lst.ItInit();
    seen := [];
    var entry := lst.ItGetEntry();
    while entry != null
      invariant lst.Valid() && lst.nodes == old(lst.nodes)
      invariant |seen| <= |lst.nodes| && seen == lst.nodes[..|seen|] && entry == lst.At(|seen|)
      invariant lst.pos == if entry == null then |lst.nodes| else |seen| + 1
      decreases |lst.nodes| - |seen|
    {
      seen := seen + [entry];
      entry := lst.ItGetEntry();
    }
  }

  /** Reading ahead from a mark and going back: any number of entries is seen in order, and the list is as
      before. */
  method LookAhead<T>(lst: List<T>, n: nat) returns (seen: seq<Entry<T>>)
    requires lst.Valid() && lst.curMark == null && lst.pos < |lst.nodes|
    modifies lst
    ensures lst.Valid() && lst.nodes == old(lst.nodes) && lst.pos == old(lst.pos) && lst.curMark == null
    ensures seen == lst.nodes[lst.pos..if lst.pos + n <= |lst.nodes| then lst.pos + n else |lst.nodes|]
  {
    ghost var from := lst.pos;
    lst.ItSaveMark();
    seen := [];
    var entry := lst.ItGetEntry();
    while entry != null && |seen| < n
      invariant lst.Valid() && lst.nodes == old(lst.nodes) && lst.MarkedAt(from)
      invariant from + |seen| <= |lst.nodes| && seen == lst.nodes[from..from + |seen|] && |seen| <= n
      invariant entry == lst.At(from + |seen|)
      invariant lst.pos == if entry == null then |lst.nodes| else from + |seen| + 1
      decreases n - |seen|
    {
      seen := seen + [entry];
      entry := lst.ItGetEntry();
    }
    lst.ItGotoMark(from);
  }

  /** A mark does not survive the removal of its entry: it then points outside the list. */
  method MarkDangles<T>(lst: List<T>, entry: Entry<T>)
    requires lst.Valid() && entry in lst.nodes && lst.curMark == entry
    modifies lst, lst.nodes
    ensures lst.Valid() && lst.curMark == entry && entry !in lst.nodes
  {
    var ok := lst.RemoveEntry(entry);
  }

  // -------------------------------------------------------------- count/value lists

  /** count_value_t: `idx` is the 1-based number of the first item of the run. */
  datatype CountValue = CountValue(idx: nat, count: nat, value: nat)

  function Runs(cvs: seq<CountValue>): (rs: seq<Run>)
    ensures |rs| == |cvs| && forall i | 0 <= i < |cvs| :: rs[i] == Run(cvs[i].count, cvs[i].value)
  {
    seq(|cvs|, i requires 0 <= i < |cvs| => Run(cvs[i].count, cvs[i].value))
  }

  /** Every run carries the number of its first item. */
  ghost predicate Numbered(cvs: seq<CountValue>) {
    forall i | 0 <= i < |cvs| :: cvs[i].idx == Total(Runs(cvs)[..i]) + 1
  }

  /** count_value_lst_update on a list of its own: the runs grow by one item and stay numbered. */
  method CountValueLstUpdate(lst: List<CountValue>, value: nat)
    requires lst.Valid() && Numbered(lst.Contents())
    modifies lst, lst.nodes
    ensures lst.Valid() && Numbered(lst.Contents())
    ensures Runs(lst.Contents()) == AppendItem(Runs(old(lst.Contents())), value)
  {
    hide Numbered, Runs, AppendItem;
    ghost var before := lst.Contents();
    var lastIdx, lastCount := 0, 1;
    if lst.entryCount > 0 {
      var cv := lst.tail;
      if cv.content.value == value {
        LastGrows(before, value);
        CountUp(lst);
        return;
      }
      lastIdx, lastCount := cv.content.idx, cv.content.count;
    }
    RunAdded(before, lastIdx + lastCount, value);
    var entry := new Entry(CountValue(lastIdx + lastCount, 1, value));
    lst.AddEntry(entry);
    assert lst.Contents() == before + [CountValue(lastIdx + lastCount, 1, value)];
  }

  /** The last run with one item more. */
  function Grown(cvs: seq<CountValue>): seq<CountValue>
    requires cvs != []
  {
    cvs[|cvs| - 1 := cvs[|cvs| - 1].(count := cvs[|cvs| - 1].count + 1)]
  }

  method CountUp(lst: List<CountValue>)
    requires lst.Valid() && lst.nodes != []
    modifies lst.nodes
    ensures lst.Valid() && lst.Contents() == Grown(old(lst.Contents()))
  {
    var cv := lst.tail;
    cv.content := cv.content.(count := cv.content.count + 1);
  }

  lemma LastGrows(before: seq<CountValue>, value: nat)
    requires Numbered(before) && before != [] && before[|before| - 1].value == value
    ensures Numbered(Grown(before)) && Runs(Grown(before)) == AppendItem(Runs(before), value)
  {
    var after := Grown(before);
    forall i | 0 <= i < |after| ensures after[i].idx == Total(Runs(after)[..i]) + 1 {
      assert Runs(after)[..i] == Runs(before)[..i];
    }
  }

  lemma RunAdded(before: seq<CountValue>, idx: nat, value: nat)
    requires Numbered(before) && (before != [] ==> before[|before| - 1].value != value)
    requires idx == if before == [] then 1 else before[|before| - 1].idx + before[|before| - 1].count
    ensures var after := before + [CountValue(idx, 1, value)];
      Numbered(after) && Runs(after) == AppendItem(Runs(before), value)
  {
    var after := before + [CountValue(idx, 1, value)];
    var n := |before|;
    assert Runs(after) == Runs(before) + [Run(1, value)];
    forall i | 0 <= i < |after| ensures after[i].idx == Total(Runs(after)[..i]) + 1 {
      assert Runs(after)[..i] == Runs(before)[..i];
      if i == n > 0 {
        assert Runs(before)[..n] == Runs(before);
        assert Runs(before)[..n][..n - 1] == Runs(before)[..n - 1];
      }
    }
  }
}
