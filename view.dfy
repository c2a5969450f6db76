/** What the file list shows, derived from the registry: the entries ordered
    by name, and the state of the download button and the select-all box
    derived from the row checkboxes. */
module View {
  import opened Records

  /** Code-point lexicographic order on names, standing for
      `a.name.localeCompare(b.name) <= 0`. */
  predicate NameLeq(a: string, b: string)
    decreases |a|
  {
    a == [] || (b != [] && (a[0] < b[0] || (a[0] == b[0] && NameLeq(a[1..], b[1..]))))
  }

  lemma {:induction false} NameLeqTotal(a: string, b: string)
    ensures NameLeq(a, b) || NameLeq(b, a)
    decreases |a|
  {
    if a != [] && b != [] && a[0] == b[0] {
      NameLeqTotal(a[1..], b[1..]);
    }
  }

  lemma {:induction false} NameLeqTrans(a: string, b: string, c: string)
    requires NameLeq(a, b) && NameLeq(b, c)
    ensures NameLeq(a, c)
    decreases |a|
  {
    if a != [] && a[0] == b[0] && b[0] == c[0] {
      NameLeqTrans(a[1..], b[1..], c[1..]);
    }
  }

  ghost predicate SortedByName(s: seq<FileRecord>) {
    forall i, j :: 0 <= i < j < |s| ==> NameLeq(s[i].name, s[j].name)
  }

  /** Puts `x` before the first entry whose name is not smaller, so that
      entries with equal names keep their order. */
  function InsertByName(x: FileRecord, s: seq<FileRecord>): (r: seq<FileRecord>)
    requires SortedByName(s)
    ensures SortedByName(r)
    ensures multiset(r) == multiset(s) + multiset{x}
  {
    if s == [] then [x]
    else if NameLeq(x.name, s[0].name) then
      assert forall j :: 0 <= j < |s| ==> NameLeq(x.name, s[j].name) by {
        forall j | 0 <= j < |s| ensures NameLeq(x.name, s[j].name) {
          if j > 0 { NameLeqTrans(x.name, s[0].name, s[j].name); }
        }
      }
      [x] + s
    else
      var rest := InsertByName(x, s[1..]);
      assert multiset(s) == multiset{s[0]} + multiset(s[1..]) by {
        assert s == [s[0]] + s[1..];
      }
      NameLeqTotal(x.name, s[0].name);
      assert forall e :: e in rest ==> NameLeq(s[0].name, e.name) by {
        forall e | e in rest ensures NameLeq(s[0].name, e.name) {
          assert e in multiset(rest);
          if e != x {
            assert e in multiset(s[1..]);
            var k :| 0 <= k < |s[1..]| && s[1..][k] == e;
            assert s[k + 1] == e;
          }
        }
      }
      [s[0]] + rest
  }

  /** The registry's entries ordered by name: sorted, and a permutation of
      its input. */
  function SortByName(s: seq<FileRecord>): (r: seq<FileRecord>)
    ensures SortedByName(r)
    ensures multiset(r) == multiset(s)
  {
    if s == [] then []
    else
      assert s == [s[0]] + s[1..];
      InsertByName(s[0], SortByName(s[1..]))
  }

  /** How many row checkboxes are checked. */
  function CheckedCount(checks: seq<bool>): (n: nat)
    ensures n <= |checks|
    ensures n == 0 <==> forall i :: 0 <= i < |checks| ==> !checks[i]
    ensures n == |checks| <==> forall i :: 0 <= i < |checks| ==> checks[i]
  {
    if checks == [] then 0
    else
      var last := |checks| - 1;
      var init := checks[..last];
      assert forall i :: 0 <= i < last ==> checks[i] == init[i];
      CheckedCount(init) + (if checks[last] then 1 else 0)
  }

  /** The count is the number of checked positions: one per checked box. */
  lemma {:induction false} CheckedCountIsSize(checks: seq<bool>)
    ensures CheckedCount(checks) == |set i | 0 <= i < |checks| && checks[i]|
  {
    if checks != [] {
      var last := |checks| - 1;
      var init := checks[..last];
      CheckedCountIsSize(init);
      assert (set i | 0 <= i < |checks| && checks[i])
          == (set i | 0 <= i < |init| && init[i]) + (if checks[last] then {last} else {});
    }
  }

  /** The download button's `disabled` flag and the select-all box's
      `checked` flag. */
  datatype Controls = Controls(downloadDisabled: bool, selectAllChecked: bool)

  /** `updateDownloadButtonState`: the button is disabled exactly when no
      checkbox is checked; select-all is checked exactly when there is a
      checkbox and every one is checked. */
  function ButtonState(checks: seq<bool>): (c: Controls)
    ensures c.downloadDisabled <==> forall i :: 0 <= i < |checks| ==> !checks[i]
    ensures c.selectAllChecked <==> |checks| > 0 && forall i :: 0 <= i < |checks| ==> checks[i]
  {
    var selected := CheckedCount(checks);
    Controls(selected == 0, |checks| > 0 && selected == |checks|)
  }

  /** The ids of the checked rows, in list order: what the download button
      sends (`selectedIds`). */
  function SelectedIds(rows: seq<FileRecord>, checks: seq<bool>): seq<string>
    requires |rows| == |checks|
  {
    if rows == [] then []
    else
      var last := |rows| - 1;
      SelectedIds(rows[..last], checks[..last]) + (if checks[last] then [rows[last].id] else [])
  }

  /** One id is sent per checked box. */
  lemma {:induction false} SelectedIdsLength(rows: seq<FileRecord>, checks: seq<bool>)
    requires |rows| == |checks|
    ensures |SelectedIds(rows, checks)| == CheckedCount(checks)
  {
    if rows != [] {
      SelectedIdsLength(rows[..|rows| - 1], checks[..|checks| - 1]);
    }
  }

  /** An id is sent exactly when some checked row carries it. */
  lemma {:induction false} SelectedIdsExactly(rows: seq<FileRecord>, checks: seq<bool>, id: string)
    requires |rows| == |checks|
    ensures id in SelectedIds(rows, checks) <==> exists i :: 0 <= i < |rows| && checks[i] && rows[i].id == id
  {
    if rows != [] {
      var last := |rows| - 1;
      var ri, ci := rows[..last], checks[..last];
      SelectedIdsExactly(ri, ci, id);
      if exists i :: 0 <= i < |rows| && checks[i] && rows[i].id == id {
        var i :| 0 <= i < |rows| && checks[i] && rows[i].id == id;
        if i < last {
          assert ci[i] && ri[i].id == id;
        }
      }
      if exists i :: 0 <= i < |ri| && ci[i] && ri[i].id == id {
        var i :| 0 <= i < |ri| && ci[i] && ri[i].id == id;
        assert checks[i] && rows[i].id == id;
      }
    }
  }

  /** Adding one row at the end adds its id exactly when it is checked. */
  lemma SelectedIdsLast(rows: seq<FileRecord>, checks: seq<bool>, row: FileRecord, check: bool)
    requires |rows| == |checks|
    ensures SelectedIds(rows + [row], checks + [check]) == SelectedIds(rows, checks) + (if check then [row.id] else [])
  {
    var rs, cs := rows + [row], checks + [check];
    assert rs[..|rows|] == rows && cs[..|checks|] == checks;
  }

  /** The selection keeps row order: the ids sent for two runs of rows back
      to back are the two selections back to back. */
  lemma {:induction false} SelectedIdsAppend(r1: seq<FileRecord>, c1: seq<bool>, r2: seq<FileRecord>, c2: seq<bool>)
    requires |r1| == |c1| && |r2| == |c2|
    ensures SelectedIds(r1 + r2, c1 + c2) == SelectedIds(r1, c1) + SelectedIds(r2, c2)
  {
    if r2 == [] {
      assert r1 + r2 == r1 && c1 + c2 == c1;
    } else {
      var last := |r2| - 1;
      var ri, ci := r2[..last], c2[..last];
      var tail := if c2[last] then [r2[last].id] else [];
      assert r2 == ri + [r2[last]] && c2 == ci + [c2[last]];
      assert r1 + r2 == (r1 + ri) + [r2[last]] && c1 + c2 == (c1 + ci) + [c2[last]];
      SelectedIdsAppend(r1, c1, ri, ci);
      SelectedIdsLast(r1 + ri, c1 + ci, r2[last], c2[last]);
      SelectedIdsLast(ri, ci, r2[last], c2[last]);
      var s1, si := SelectedIds(r1, c1), SelectedIds(ri, ci);
      assert (s1 + si) + tail == s1 + (si + tail);
    }
  }

  /** One row contributes its id exactly when its box is checked. */
  lemma SelectedIdsSingle(row: FileRecord, check: bool)
    ensures SelectedIds([row], [check]) == if check then [row.id] else []
  {
    assert [row][..0] == [] && [check][..0] == [];
  }

  /** A click on the download button sends a request exactly when some row
      is checked, that is, exactly when the button is enabled. */
  lemma {:induction false} DownloadMatchesButton(rows: seq<FileRecord>, checks: seq<bool>)
    requires |rows| == |checks|
    ensures SelectedIds(rows, checks) == [] <==> ButtonState(checks).downloadDisabled
  {
    SelectedIdsLength(rows, checks);
  }
}
