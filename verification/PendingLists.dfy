/** Pending jump lists threaded through the words of the code buffer. A list
    is named by the byte offset of its first word; 0 names the empty list. */
module PendingLists {

  /** The word after the i-th one of a list; 0 at the end. */
  function After(c: seq<nat>, i: nat): nat {
    if i + 1 < |c| then c[i + 1] else 0
  }

  predicate Distinct(c: seq<nat>) {
    forall i, j :: 0 <= i < j < |c| ==> c[i] != c[j]
  }

  /** Every word of c is an aligned word below `limit` that links to the next;
      links[k] is the offset that the word at byte offset 4 * k points to. */
  predicate Chain(links: seq<int>, c: seq<nat>, limit: nat) {
    forall i :: 0 <= i < |c| ==>
      0 < c[i] < limit && c[i] % 4 == 0 && c[i] / 4 < |links| && links[c[i] / 4] == After(c, i)
  }

  /** All pending lists, by name. */
  type Lists = map<nat, seq<nat>>

  predicate Known(lists: Lists, t: nat) {
    t == 0 || t in lists
  }

  function ListOf(lists: Lists, t: nat): seq<nat>
    requires Known(lists, t)
  {
    if t == 0 then [] else lists[t]
  }

  /** A nonempty duplicate-free chain named by its first word. */
  predicate Sound(links: seq<int>, c: seq<nat>, name: nat, limit: nat) {
    c != [] && c[0] == name && Distinct(c) && Chain(links, c, limit)
  }

  /** No word is in two pending lists. */
  ghost predicate Apart(lists: Lists) {
    forall h, g, p :: h in lists && g in lists && p in lists[h] && p in lists[g] ==> h == g
  }

  ghost predicate Tidy(lists: Lists, links: seq<int>, limit: nat) {
    (forall h :: h in lists ==> Sound(links, lists[h], h, limit)) && Apart(lists)
  }

  lemma Member(lists: Lists, links: seq<int>, limit: nat, h: nat, p: nat)
    requires Tidy(lists, links, limit) && h in lists && p in lists[h]
    ensures 0 < p < limit && p % 4 == 0 && p / 4 < |links|
  {
    var i :| 0 <= i < |lists[h]| && lists[h][i] == p;
  }

  /** What a walk along a pending list may use. */
  lemma PendingList(lists: Lists, links: seq<int>, limit: nat, t: nat)
    requires Tidy(lists, links, limit) && Known(lists, t)
    ensures Chain(links, ListOf(lists, t), limit) && Distinct(ListOf(lists, t)) && 0 !in lists
    ensures t == if ListOf(lists, t) == [] then 0 else ListOf(lists, t)[0]
    ensures t != 0 ==> ListOf(lists, t) != []
  {
  }

  function Pushed(lists: Lists, r: nat, t: nat): Lists
    requires Known(lists, t)
  {
    (lists - {t})[r := [r] + ListOf(lists, t)]
  }

  function Joined(lists: Lists, n: nat, t: nat): Lists
    requires Known(lists, n) && Known(lists, t)
  {
    if n == 0 then lists else (lists - {t})[n := lists[n] + ListOf(lists, t)]
  }

  /** The new word heads the list; the other lists stay. */
  lemma PushedIs(lists: Lists, r: nat, t: nat)
    requires Known(lists, t) && r > 0 && r !in lists
    ensures r in Pushed(lists, r, t) && ListOf(Pushed(lists, r, t), r) == [r] + ListOf(lists, t)
    ensures forall h :: h in lists && h != t ==> h in Pushed(lists, r, t) && Pushed(lists, r, t)[h] == lists[h]
  {
  }

  /** The second list stands behind the first, under the name of the first. */
  lemma JoinedIs(lists: Lists, n: nat, t: nat)
    requires n in lists && Known(lists, t) && n != t && n != 0
    ensures n in Joined(lists, n, t) && Joined(lists, n, t)[n] == lists[n] + ListOf(lists, t)
    ensures t !in Joined(lists, n, t) || t == 0
    ensures forall h :: h in lists && h != n && h != t ==>
      h in Joined(lists, n, t) && Joined(lists, n, t)[h] == lists[h]
  {
  }

  /** links' agrees with links at every word of the list c. */
  predicate Agree(links: seq<int>, links': seq<int>, c: seq<nat>) {
    forall i :: 0 <= i < |c| && c[i] / 4 < |links| ==> c[i] / 4 < |links'| && links'[c[i] / 4] == links[c[i] / 4]
  }

  lemma ChainKept(links: seq<int>, links': seq<int>, c: seq<nat>, limit: nat, limit': nat)
    requires Chain(links, c, limit) && limit <= limit' && Agree(links, links', c)
    ensures Chain(links', c, limit')
  {
    forall i | 0 <= i < |c|
      ensures 0 < c[i] < limit' && c[i] % 4 == 0 && c[i] / 4 < |links'| && links'[c[i] / 4] == After(c, i)
    {
      assert links[c[i] / 4] == After(c, i);
    }
  }

  /** Writing words that no pending list uses keeps the lists. */
  lemma Kept(lists: Lists, links: seq<int>, links': seq<int>, limit: nat, limit': nat)
    requires Tidy(lists, links, limit) && limit <= limit'
    requires forall h :: h in lists ==> Agree(links, links', lists[h])
    ensures Tidy(lists, links', limit')
  {
    forall h | h in lists ensures Sound(links', lists[h], h, limit') {
      ChainKept(links, links', lists[h], limit, limit');
    }
  }

  /** A list whose words are rewritten is no longer pending; the others stay. */
  lemma Dropped(lists: Lists, links: seq<int>, links': seq<int>, limit: nat, t: nat)
    requires Tidy(lists, links, limit) && Known(lists, t) && |links'| == |links|
    requires forall k :: 0 <= k < |links| && 4 * k !in ListOf(lists, t) ==> links'[k] == links[k]
    ensures Tidy(lists - {t}, links', limit)
  {
    forall h | h in lists - {t} ensures Agree(links, links', lists[h]) {
      forall i | 0 <= i < |lists[h]| && lists[h][i] / 4 < |links|
        ensures links'[lists[h][i] / 4] == links[lists[h][i] / 4]
      {
        assert lists[h][i] in lists[h] && 4 * (lists[h][i] / 4) == lists[h][i];
        if t in lists {
          assert lists[h][i] !in lists[t];
        }
      }
    }
    assert Tidy(lists - {t}, links, limit);
    Kept(lists - {t}, links, links', limit, limit);
  }

  lemma PushApart(lists: Lists, r: nat, t: nat)
    requires Apart(lists) && Known(lists, t) && forall h :: h in lists ==> r !in lists[h]
    ensures Apart(Pushed(lists, r, t))
  {
    var next := Pushed(lists, r, t);
    forall h, g, p | h in next && g in next && p in next[h] && p in next[g] ensures h == g {
      assert h != r ==> p in lists[h];
      assert g != r ==> p in lists[g];
    }
  }

  lemma PushSound(links: seq<int>, links': seq<int>, c: seq<nat>, r: nat)
    requires c != [] ==> Sound(links, c, c[0], r)
    requires 0 < r && r % 4 == 0 && r / 4 < |links'| && links'[r / 4] == if c == [] then 0 else c[0]
    requires Agree(links, links', c)
    ensures Sound(links', [r] + c, r, r + 4)
  {
    var e := [r] + c;
    forall i | 0 <= i < |e|
      ensures 0 < e[i] < r + 4 && e[i] % 4 == 0 && e[i] / 4 < |links'| && links'[e[i] / 4] == After(e, i)
    {
      if i > 0 {
        assert e[i] == c[i - 1] && After(e, i) == After(c, i - 1);
      }
    }
  }

  /** A new word at the end of the code that links to the list t heads the longer list. */
  lemma PushTidy(lists: Lists, links: seq<int>, links': seq<int>, r: nat, t: nat)
    requires Tidy(lists, links, r) && Known(lists, t)
    requires 0 < r && r % 4 == 0 && r / 4 < |links'| && links'[r / 4] == t
    requires |links| <= |links'| && forall k :: 0 <= k < |links| && k != r / 4 ==> links'[k] == links[k]
    ensures Tidy(Pushed(lists, r, t), links', r + 4)
  {
    forall h | h in lists ensures Agree(links, links', lists[h]) && r !in lists[h] {
    }
    forall h | h in lists ensures Sound(links', lists[h], h, r + 4) {
      ChainKept(links, links', lists[h], r, r + 4);
    }
    PushSound(links, links', ListOf(lists, t), r);
    PushApart(lists, r, t);
  }

  lemma JoinedChain(links: seq<int>, links': seq<int>, c: seq<nat>, d: seq<nat>, limit: nat)
    requires c != [] && Chain(links, c, limit) && Chain(links, d, limit) && Distinct(c) && Distinct(d)
    requires forall p :: p in c && p in d ==> false
    requires |links'| == |links| && links'[c[|c| - 1] / 4] == if d == [] then 0 else d[0]
    requires forall k :: 0 <= k < |links| && k != c[|c| - 1] / 4 ==> links'[k] == links[k]
    ensures Chain(links', c + d, limit) && Distinct(c + d)
  {
    var e := c + d;
    var last := c[|c| - 1];
    forall i | 0 <= i < |e|
      ensures 0 < e[i] < limit && e[i] % 4 == 0 && e[i] / 4 < |links'| && links'[e[i] / 4] == After(e, i)
    {
      if i < |c| {
        assert e[i] == c[i] && last % 4 == 0;
        if i < |c| - 1 {
          assert c[i] / 4 != last / 4;
        }
      } else {
        assert e[i] == d[i - |c|] && d[i - |c|] in d && last in c;
        assert d[i - |c|] / 4 != last / 4;
        assert After(e, i) == After(d, i - |c|);
      }
    }
    forall i, j | 0 <= i < j < |e| ensures e[i] != e[j] {
      if i < |c| <= j {
        assert e[i] in c && e[j] in d;
      }
    }
  }

  lemma JoinApart(lists: Lists, n: nat, t: nat)
    requires Apart(lists) && Known(lists, t) && n in lists && n != 0 && n != t
    ensures Apart(Joined(lists, n, t))
  {
    var next := Joined(lists, n, t);
    forall h, g, p | h in next && g in next && p in next[h] && p in next[g] ensures h == g {
      assert h != n ==> p in lists[h];
      assert g != n ==> p in lists[g];
    }
  }

  lemma LastUnshared(lists: Lists, links: seq<int>, links': seq<int>, limit: nat, n: nat, h: nat)
    requires Tidy(lists, links, limit) && n in lists && h in lists && h != n && |links'| == |links|
    requires var last := lists[n][|lists[n]| - 1];
      forall k :: 0 <= k < |links| && k != last / 4 ==> links'[k] == links[k]
    ensures Agree(links, links', lists[h])
  {
    var c, d := lists[n], lists[h];
    var last := c[|c| - 1];
    assert last in c && last % 4 == 0;
    forall i | 0 <= i < |d| && d[i] / 4 < |links| ensures links'[d[i] / 4] == links[d[i] / 4] {
      assert d[i] in d && d[i] % 4 == 0;
    }
  }

  /** Linking the last word of the list n to the list t concatenates the two. */
  lemma JoinTidy(lists: Lists, links: seq<int>, links': seq<int>, limit: nat, n: nat, t: nat)
    requires Tidy(lists, links, limit) && n != 0 && n in lists && Known(lists, t) && n != t
    requires |links'| == |links|
    requires var last := lists[n][|lists[n]| - 1];
      links'[last / 4] == t && forall k :: 0 <= k < |links| && k != last / 4 ==> links'[k] == links[k]
    ensures Tidy(Joined(lists, n, t), links', limit)
  {
    JoinedChain(links, links', lists[n], ListOf(lists, t), limit);
    forall h | h in lists && h != n ensures Sound(links', lists[h], h, limit) {
      LastUnshared(lists, links, links', limit, n, h);
      ChainKept(links, links', lists[h], limit, limit);
    }
    JoinApart(lists, n, t);
  }

  ghost predicate InSome(lists: Lists, p: nat) {
    exists h :: h in lists && p in lists[h]
  }

  /** Every jump generated so far is resolved or in a pending list. */
  ghost predicate Accounted(jumps: set<nat>, lists: Lists, labels: map<nat, nat>) {
    forall p :: p in jumps ==> p in labels || InSome(lists, p)
  }

  lemma PushAccounted(jumps: set<nat>, lists: Lists, labels: map<nat, nat>, r: nat, t: nat)
    requires Accounted(jumps, lists, labels) && Known(lists, t) && r !in lists && 0 !in lists
    ensures Accounted(jumps + {r}, Pushed(lists, r, t), labels)
  {
    var next := Pushed(lists, r, t);
    forall p | p in jumps + {r} ensures p in labels || InSome(next, p) {
      if p != r && p !in labels {
        var h :| h in lists && p in lists[h];
        if h == t {
          assert p in next[r];
        } else {
          assert p in next[h];
        }
      } else if p == r {
        assert p in next[r];
      }
    }
  }

  lemma JoinAccounted(jumps: set<nat>, lists: Lists, labels: map<nat, nat>, n: nat, t: nat)
    requires Accounted(jumps, lists, labels) && Known(lists, t) && n in lists && n != 0 && n != t && 0 !in lists
    ensures Accounted(jumps, Joined(lists, n, t), labels)
  {
    var next := Joined(lists, n, t);
    forall p | p in jumps ensures p in labels || InSome(next, p) {
      if p !in labels {
        var h :| h in lists && p in lists[h];
        if h == n || h == t {
          assert p in next[n];
        } else {
          assert p in next[h];
        }
      }
    }
  }

  function Labelled(labels: map<nat, nat>, c: seq<nat>, a: nat): map<nat, nat> {
    labels + map p | p in c :: a
  }

  lemma DropAccounted(jumps: set<nat>, lists: Lists, labels: map<nat, nat>, t: nat, a: nat)
    requires Accounted(jumps, lists, labels) && Known(lists, t) && 0 !in lists
    ensures Accounted(jumps, lists - {t}, Labelled(labels, ListOf(lists, t), a))
  {
    forall p | p in jumps ensures p in Labelled(labels, ListOf(lists, t), a) || InSome(lists - {t}, p) {
      if p !in labels {
        var h :| h in lists && p in lists[h];
        if h != t {
          assert h in lists - {t} && p in (lists - {t})[h];
        }
      }
    }
  }
}
