/** The plugin bootstrap's pure helpers: the order-status list filters, the
    payment-gateway list filter, and the activation/deactivation hooks that
    schedule the hourly poll. */
module Plugin {

  // ---------------------------------------------------------------------------
  // Ordered maps, as PHP arrays with string keys.
  // ---------------------------------------------------------------------------

  /** A PHP array of status id => label, in insertion order. */
  type StatusList = seq<(string, string)>

  /** The keys of an array, in order. */
  function Keys(m: StatusList): (ks: seq<string>)
    ensures |ks| == |m|
    ensures forall i :: 0 <= i < |m| ==> ks[i] == m[i].0
    decreases |m|
  {
    if |m| == 0 then [] else [m[0].0] + Keys(m[1..])
  }

  predicate HasKey(m: StatusList, k: string)
  {
    k in Keys(m)
  }

  /** PHP arrays never repeat a key. */
  predicate DistinctKeys(m: StatusList)
  {
    forall i, j :: 0 <= i < j < |m| ==> m[i].0 != m[j].0
  }

  /** Every entry with key `k` gets value `v`; the others are kept. */
  function Overwrite(m: StatusList, k: string, v: string): (r: StatusList)
    ensures |r| == |m|
    ensures forall i {:trigger r[i]} :: 0 <= i < |m| ==> r[i] == (if m[i].0 == k then (k, v) else m[i])
    decreases |m|
  {
    if |m| == 0 then [] else [if m[0].0 == k then (k, v) else m[0]] + Overwrite(m[1..], k, v)
  }

  /** `$m[$k] = $v`: overwrite the value in place when the key exists, else
      append the pair at the end. */
  function Put(m: StatusList, k: string, v: string): (r: StatusList)
    ensures !HasKey(m, k) ==> r == m + [(k, v)]
    ensures HasKey(m, k) ==>
      |r| == |m| && forall i {:trigger r[i]} :: 0 <= i < |m| ==> r[i] == (if m[i].0 == k then (k, v) else m[i])
    ensures HasKey(m, k) ==> Keys(r) == Keys(m)
    ensures DistinctKeys(m) ==> DistinctKeys(r)
  {
    if HasKey(m, k) then Overwrite(m, k, v) else m + [(k, v)]
  }

  lemma KeysAppend(a: StatusList, b: StatusList)
    ensures Keys(a + b) == Keys(a) + Keys(b)
  {
  }

  /** In a key-distinct array, the head of a suffix does not occur in the prefix. */
  lemma HeadNotInPrefix(acc: StatusList, rest: StatusList)
    requires DistinctKeys(acc + rest) && |rest| > 0
    ensures !HasKey(acc, rest[0].0)
  {
    forall j | 0 <= j < |acc|
      ensures Keys(acc)[j] != rest[0].0
    {
      assert (acc + rest)[j] == acc[j] && (acc + rest)[|acc|] == rest[0];
    }
  }

  /** One iteration of the loop on an entry other than `wc-pending`. */
  lemma AddStatusFromStep(acc: StatusList, rest: StatusList)
    requires |rest| > 0 && rest[0].0 != PendingStatus && !HasKey(acc, rest[0].0)
    ensures AddStatusFrom(acc, rest) == AddStatusFrom(acc + [rest[0]], rest[1..])
  {
    var (id, name) := rest[0];
    assert Put(acc, id, name) == acc + [rest[0]];
  }

  // ---------------------------------------------------------------------------
  // open_wc_add_status
  // ---------------------------------------------------------------------------

  const PendingStatus := "wc-pending"
  const BlockchainPendingStatus := "wc-blockchain-pending"
  const BlockchainPendingLabel := "Blockchain Pending"

  /** The `foreach` loop of `open_wc_add_status`, from accumulator `acc` over
      the remaining entries `rest`. */
  function AddStatusFrom(acc: StatusList, rest: StatusList): StatusList
    decreases |rest|
  {
    if |rest| == 0 then acc
    else
      var (id, name) := rest[0];
      var acc1 := Put(acc, id, name);
      var acc2 := if id == PendingStatus then Put(acc1, BlockchainPendingStatus, BlockchainPendingLabel) else acc1;
      AddStatusFrom(acc2, rest[1..])
  }

  /** `open_wc_add_status($wc_statuses_arr)`. */
  function AddStatus(statuses: StatusList): StatusList
  {
    AddStatusFrom([], statuses)
  }

  /** The expected list: the blockchain-pending entry right after `wc-pending`
      at index `i`, every other entry kept in its original order. */
  function InsertAfter(statuses: StatusList, i: nat): (r: StatusList)
    requires i < |statuses|
    ensures |r| == |statuses| + 1
    ensures forall j :: 0 <= j <= i ==> r[j] == statuses[j]
    ensures r[i + 1] == (BlockchainPendingStatus, BlockchainPendingLabel)
    ensures forall j :: i + 1 < j < |r| ==> r[j] == statuses[j - 1]
  {
    statuses[..i + 1] + [(BlockchainPendingStatus, BlockchainPendingLabel)] + statuses[i + 1..]
  }

  /** Inserting a key the array lacks keeps its keys distinct. */
  lemma InsertAfterDistinct(statuses: StatusList, i: nat)
    requires DistinctKeys(statuses) && !HasKey(statuses, BlockchainPendingStatus)
    requires i < |statuses|
    ensures DistinctKeys(InsertAfter(statuses, i))
  {
    var r := InsertAfter(statuses, i);
    forall a, b | 0 <= a < b < |r|
      ensures r[a].0 != r[b].0
    {
      var a' := if a <= i then a else a - 1;
      var b' := if b <= i then b else b - 1;
      if a == i + 1 {
        assert Keys(statuses)[b'] == r[b].0;
      } else if b == i + 1 {
        assert Keys(statuses)[a'] == r[a].0;
      } else {
        assert r[a] == statuses[a'] && r[b] == statuses[b'];
      }
    }
  }

  /** One iteration of the loop on `wc-pending`: the entry, then the new status. */
  lemma AddStatusFromPendingStep(acc: StatusList, rest: StatusList)
    requires |rest| > 0 && rest[0].0 == PendingStatus
    requires !HasKey(acc, PendingStatus) && !HasKey(acc, BlockchainPendingStatus)
    ensures AddStatusFrom(acc, rest) ==
      AddStatusFrom(acc + [rest[0], (BlockchainPendingStatus, BlockchainPendingLabel)], rest[1..])
  {
    var acc1 := Put(acc, rest[0].0, rest[0].1);
    assert acc1 == acc + [rest[0]];
    KeysAppend(acc, [rest[0]]);
    assert !HasKey(acc1, BlockchainPendingStatus);
    assert acc1 + [(BlockchainPendingStatus, BlockchainPendingLabel)] ==
      acc + [rest[0], (BlockchainPendingStatus, BlockchainPendingLabel)];
  }

  /** One iteration of the loop on an entry other than `wc-pending`, in a
      key-distinct array. */
  lemma CopyStep(acc: StatusList, rest: StatusList)
    requires DistinctKeys(acc + rest) && |rest| > 0 && rest[0].0 != PendingStatus
    ensures AddStatusFrom(acc, rest) == AddStatusFrom(acc + [rest[0]], rest[1..])
    ensures DistinctKeys(acc + [rest[0]] + rest[1..])
  {
    assert acc + [rest[0]] + rest[1..] == acc + rest;
    assert !HasKey(acc, rest[0].0) by {
      HeadNotInPrefix(acc, rest);
    }
    AddStatusFromStep(acc, rest);
  }

  /** Moving the head of `rest` to the end of `acc` moves the split point by one. */
  lemma ShiftHead(acc: StatusList, rest: StatusList, n: nat)
    requires 0 < n <= |rest|
    ensures (acc + [rest[0]]) + rest[1..][..n - 1] == acc + rest[..n]
    ensures rest[1..][n - 1..] == rest[n..]
  {
    assert rest[..n] == [rest[0]] + rest[1..][..n - 1];
  }

  lemma NoPendingInTail(rest: StatusList, n: nat)
    requires 0 < n <= |rest|
    requires forall j :: 0 <= j < n ==> rest[j].0 != PendingStatus
    ensures forall j :: 0 <= j < n - 1 ==> rest[1..][j].0 != PendingStatus
  {
  }

  /** Up to index `n`, the loop meets no `wc-pending` and just copies the entries. */
  lemma {:induction false} AddStatusFromCopies(acc: StatusList, rest: StatusList, n: nat)
    requires n <= |rest|
    requires DistinctKeys(acc + rest)
    requires forall j :: 0 <= j < n ==> rest[j].0 != PendingStatus
    ensures AddStatusFrom(acc, rest) == AddStatusFrom(acc + rest[..n], rest[n..])
    decreases n
  {
    if n > 0 {
      var acc1 := acc + [rest[0]];
      var tail := rest[1..];
      CopyStep(acc, rest);
      NoPendingInTail(rest, n);
      AddStatusFromCopies(acc1, tail, n - 1);
      ShiftHead(acc, rest, n);
    } else {
      assert acc + rest[..0] == acc;
    }
  }

  /** Without `wc-pending` in `rest`, the loop appends `rest` to `acc`. */
  lemma AddStatusFromCopiesAll(acc: StatusList, rest: StatusList)
    requires DistinctKeys(acc + rest)
    requires forall j :: 0 <= j < |rest| ==> rest[j].0 != PendingStatus
    ensures AddStatusFrom(acc, rest) == acc + rest
  {
    assert rest[..|rest|] == rest;
    assert rest[|rest|..] == [];
    AddStatusFromCopies(acc, rest, |rest|);
  }

  /** When `wc-pending` is absent, the list comes back unchanged. */
  lemma AddStatusWithoutPending(statuses: StatusList)
    requires DistinctKeys(statuses)
    requires !HasKey(statuses, PendingStatus)
    ensures AddStatus(statuses) == statuses
  {
    assert [] + statuses == statuses;
    AddStatusFromCopies([], statuses, |statuses|);
    assert statuses[..|statuses|] == statuses;
  }

  /** Before `wc-pending` at index `i`, the loop copies the entries. */
  lemma AddStatusCopiesPrefix(statuses: StatusList, i: nat)
    requires DistinctKeys(statuses)
    requires i < |statuses| && statuses[i].0 == PendingStatus
    ensures AddStatus(statuses) == AddStatusFrom(statuses[..i], statuses[i..])
  {
    assert [] + statuses == statuses;
    forall j | 0 <= j < i
      ensures statuses[j].0 != PendingStatus
    {
      assert statuses[j].0 != statuses[i].0;
    }
    AddStatusFromCopies([], statuses, i);
    assert [] + statuses[..i] == statuses[..i];
  }

  /** At `wc-pending`, the loop adds the entry and then the new status. */
  lemma AddStatusAtPending(statuses: StatusList, i: nat)
    requires DistinctKeys(statuses)
    requires i < |statuses| && statuses[i].0 == PendingStatus
    requires forall k :: 0 <= k < i ==> statuses[k].0 != BlockchainPendingStatus
    ensures AddStatusFrom(statuses[..i], statuses[i..]) ==
      AddStatusFrom(statuses[..i + 1] + [(BlockchainPendingStatus, BlockchainPendingLabel)], statuses[i + 1..])
  {
    var prefix := statuses[..i];
    var rest := statuses[i..];
    assert prefix + [rest[0], (BlockchainPendingStatus, BlockchainPendingLabel)] ==
      statuses[..i + 1] + [(BlockchainPendingStatus, BlockchainPendingLabel)];
    assert rest[1..] == statuses[i + 1..];
    assert !HasKey(prefix, PendingStatus) && !HasKey(prefix, BlockchainPendingStatus) by {
      forall j | 0 <= j < |prefix|
        ensures Keys(prefix)[j] != PendingStatus && Keys(prefix)[j] != BlockchainPendingStatus
      {
        assert statuses[j].0 != statuses[i].0;
        assert prefix[j] == statuses[j];
      }
    }
    AddStatusFromPendingStep(prefix, rest);
  }

  /** After `wc-pending`, the loop copies the remaining entries. */
  lemma AddStatusCopiesSuffix(statuses: StatusList, i: nat)
    requires DistinctKeys(statuses)
    requires !HasKey(statuses, BlockchainPendingStatus)
    requires i < |statuses| && statuses[i].0 == PendingStatus
    ensures AddStatusFrom(statuses[..i + 1] + [(BlockchainPendingStatus, BlockchainPendingLabel)], statuses[i + 1..]) ==
      InsertAfter(statuses, i)
  {
    var acc := statuses[..i + 1] + [(BlockchainPendingStatus, BlockchainPendingLabel)];
    var tail := statuses[i + 1..];
    assert acc + tail == InsertAfter(statuses, i);
    InsertAfterDistinct(statuses, i);
    forall j | 0 <= j < |tail|
      ensures tail[j].0 != PendingStatus
    {
      assert tail[j] == statuses[i + 1 + j];
      assert statuses[i + 1 + j].0 != statuses[i].0;
    }
    AddStatusFromCopies(acc, tail, |tail|);
    assert tail[..|tail|] == tail;
    assert tail[|tail|..] == [];
  }

  /** With `wc-pending` at index `i` and no blockchain-pending entry yet, every
      input entry is kept in order and the new status sits right after `wc-pending`. */
  lemma AddStatusInsertsAfterPending(statuses: StatusList, i: nat)
    requires DistinctKeys(statuses)
    requires !HasKey(statuses, BlockchainPendingStatus)
    requires i < |statuses| && statuses[i].0 == PendingStatus
    ensures AddStatus(statuses) == InsertAfter(statuses, i)
  {
    forall k | 0 <= k < i
      ensures statuses[k].0 != BlockchainPendingStatus
    {
      assert Keys(statuses)[k] == statuses[k].0;
    }
    AddStatusCopiesPrefix(statuses, i);
    AddStatusAtPending(statuses, i);
    AddStatusCopiesSuffix(statuses, i);
  }

  /** The loop over `a + b` is the loop over `a`, continued over `b`. */
  lemma {:induction false} AddStatusFromConcat(acc: StatusList, a: StatusList, b: StatusList)
    ensures AddStatusFrom(acc, a + b) == AddStatusFrom(AddStatusFrom(acc, a), b)
    decreases |a|
  {
    if |a| == 0 {
      assert a + b == b;
    } else {
      assert (a + b)[0] == a[0];
      assert (a + b)[1..] == a[1..] + b;
      var (id, name) := a[0];
      var acc1 := Put(acc, id, name);
      var acc2 := if id == PendingStatus then Put(acc1, BlockchainPendingStatus, BlockchainPendingLabel) else acc1;
      AddStatusFromConcat(acc2, a[1..], b);
    }
  }

  /** One iteration on `wc-pending` when the array already holds the new
      status: the entry is appended, then the existing label is overwritten in place. */
  lemma AddStatusFromPendingOverwrite(acc: StatusList, rest: StatusList)
    requires |rest| > 0 && rest[0].0 == PendingStatus
    requires !HasKey(acc, PendingStatus) && HasKey(acc, BlockchainPendingStatus)
    ensures AddStatusFrom(acc, rest) ==
      AddStatusFrom(Overwrite(acc + [rest[0]], BlockchainPendingStatus, BlockchainPendingLabel), rest[1..])
  {
    var acc1 := Put(acc, rest[0].0, rest[0].1);
    assert acc1 == acc + [rest[0]];
    KeysAppend(acc, [rest[0]]);
    assert HasKey(acc1, BlockchainPendingStatus);
  }

  /** Up to and including `wc-pending` at `i`, with the new status already at
      `j < i`: the entries are copied and the label at `j` is overwritten. */
  lemma OverwriteAtPending(statuses: StatusList, i: nat, j: nat)
    requires DistinctKeys(statuses)
    requires i < |statuses| && statuses[i].0 == PendingStatus
    requires j < i && statuses[j].0 == BlockchainPendingStatus
    ensures AddStatus(statuses) ==
      AddStatusFrom(Overwrite(statuses[..i + 1], BlockchainPendingStatus, BlockchainPendingLabel), statuses[i + 1..])
  {
    var prefix := statuses[..i];
    var rest := statuses[i..];
    assert prefix + [rest[0]] == statuses[..i + 1];
    assert rest[1..] == statuses[i + 1..];
    forall k | 0 <= k < |prefix|
      ensures Keys(prefix)[k] != PendingStatus
    {
      assert statuses[k].0 != statuses[i].0;
      assert prefix[k] == statuses[k];
    }
    assert Keys(prefix)[j] == BlockchainPendingStatus;
    AddStatusCopiesPrefix(statuses, i);
    AddStatusFromPendingOverwrite(prefix, rest);
  }

  /** In a key-distinct list whose key `k` sits at `j < n`, relabelling the
      first `n` entries relabels the whole list. */
  lemma OverwriteWithinPrefix(m: StatusList, n: nat, j: nat, k: string, v: string)
    requires DistinctKeys(m)
    requires j < n <= |m| && m[j].0 == k
    ensures Overwrite(m[..n], k, v) + m[n..] == Overwrite(m, k, v)
  {
    var l := Overwrite(m[..n], k, v) + m[n..];
    var r := Overwrite(m, k, v);
    forall t | 0 <= t < |m|
      ensures l[t] == r[t]
    {
      if t < n {
        assert m[..n][t] == m[t];
      } else {
        assert m[t].0 != m[j].0;
        assert l[t] == m[n..][t - n] == m[t];
      }
    }
  }

  /** Past `wc-pending` at `i`, a key-distinct list holds no other `wc-pending`. */
  lemma NoPendingAfter(statuses: StatusList, i: nat, tail: StatusList)
    requires DistinctKeys(statuses)
    requires i < |statuses| && statuses[i].0 == PendingStatus
    requires tail == statuses[i + 1..]
    ensures forall t :: 0 <= t < |tail| ==> tail[t].0 != PendingStatus
  {
    forall t | 0 <= t < |tail|
      ensures tail[t].0 != PendingStatus
    {
      assert tail[t] == statuses[i + 1 + t];
      assert statuses[i + 1 + t].0 != statuses[i].0;
    }
  }

  /** Relabelling a prefix keeps the keys of the whole list distinct. */
  lemma OverwritePrefixDistinct(m: StatusList, n: nat, k: string, v: string)
    requires DistinctKeys(m) && n <= |m|
    ensures DistinctKeys(Overwrite(m[..n], k, v) + m[n..])
  {
    var r := Overwrite(m[..n], k, v) + m[n..];
    forall a, b | 0 <= a < b < |r|
      ensures r[a].0 != r[b].0
    {
      assert r[a].0 == m[a].0 by {
        if a < n { assert m[..n][a] == m[a]; } else { assert r[a] == m[n..][a - n] == m[a]; }
      }
      assert r[b].0 == m[b].0 by {
        if b < n { assert m[..n][b] == m[b]; } else { assert r[b] == m[n..][b - n] == m[b]; }
      }
    }
  }

  /** After `wc-pending`, the entries are copied behind the relabelled prefix. */
  lemma OverwriteCopiesTail(statuses: StatusList, i: nat)
    requires DistinctKeys(statuses)
    requires i < |statuses| && statuses[i].0 == PendingStatus
    ensures AddStatusFrom(Overwrite(statuses[..i + 1], BlockchainPendingStatus, BlockchainPendingLabel), statuses[i + 1..])
         == Overwrite(statuses[..i + 1], BlockchainPendingStatus, BlockchainPendingLabel) + statuses[i + 1..]
  {
    var tail := statuses[i + 1..];
    var acc := Overwrite(statuses[..i + 1], BlockchainPendingStatus, BlockchainPendingLabel);
    NoPendingAfter(statuses, i, tail);
    OverwritePrefixDistinct(statuses, i + 1, BlockchainPendingStatus, BlockchainPendingLabel);
    AddStatusFromCopiesAll(acc, tail);
  }

  /** When the input lists the blockchain-pending status at `j`, before
      `wc-pending` at `i`, the entry stays where it is and gets the plugin's label. */
  lemma AddStatusOverwritesExisting(statuses: StatusList, i: nat, j: nat)
    requires DistinctKeys(statuses)
    requires i < |statuses| && statuses[i].0 == PendingStatus
    requires j < i && statuses[j].0 == BlockchainPendingStatus
    ensures AddStatus(statuses) == Overwrite(statuses, BlockchainPendingStatus, BlockchainPendingLabel)
  {
    OverwriteAtPending(statuses, i, j);
    OverwriteCopiesTail(statuses, i);
    OverwriteWithinPrefix(statuses, i + 1, j, BlockchainPendingStatus, BlockchainPendingLabel);
  }

  /** The expected list when the blockchain-pending entry sits at `j`, after
      `wc-pending` at `i`: that entry, label and all, moves right after
      `wc-pending`; every other entry keeps its relative order. */
  function MoveAfter(statuses: StatusList, i: nat, j: nat): (r: StatusList)
    requires i < j < |statuses|
    ensures |r| == |statuses|
    ensures forall k :: 0 <= k <= i ==> r[k] == statuses[k]
    ensures r[i + 1] == statuses[j]
    ensures forall k :: i + 1 < k <= j ==> r[k] == statuses[k - 1]
    ensures forall k :: j < k < |r| ==> r[k] == statuses[k]
  {
    statuses[..i + 1] + [statuses[j]] + statuses[i + 1..j] + statuses[j + 1..]
  }

  /** Moving one entry keeps the keys distinct. */
  lemma MoveAfterDistinct(statuses: StatusList, i: nat, j: nat)
    requires DistinctKeys(statuses)
    requires i < j < |statuses|
    ensures DistinctKeys(MoveAfter(statuses, i, j))
  {
    var r := MoveAfter(statuses, i, j);
    forall a, b | 0 <= a < b < |r|
      ensures r[a].0 != r[b].0
    {
      var a' := if a <= i || j < a then a else if a == i + 1 then j else a - 1;
      var b' := if b <= i || j < b then b else if b == i + 1 then j else b - 1;
      assert r[a] == statuses[a'] && r[b] == statuses[b'];
      assert a' != b';
    }
  }

  /** The list before the existing entry at `j`, with the new status inserted
      after `wc-pending`, has distinct keys. */
  lemma MoveMiddleDistinct(statuses: StatusList, i: nat, j: nat)
    requires DistinctKeys(statuses)
    requires i < j < |statuses| && statuses[j].0 == BlockchainPendingStatus
    ensures DistinctKeys(statuses[..i + 1] + [(BlockchainPendingStatus, BlockchainPendingLabel)] + statuses[i + 1..j])
  {
    var head := statuses[..j];
    assert DistinctKeys(head) by {
      forall a, b | 0 <= a < b < |head|
        ensures head[a].0 != head[b].0
      {
        assert head[a] == statuses[a] && head[b] == statuses[b];
      }
    }
    assert !HasKey(head, BlockchainPendingStatus) by {
      forall k | 0 <= k < |head|
        ensures Keys(head)[k] != BlockchainPendingStatus
      {
        assert head[k] == statuses[k];
        assert statuses[k].0 != statuses[j].0;
      }
    }
    InsertAfterDistinct(head, i);
    assert head[..i + 1] == statuses[..i + 1] && head[i + 1..] == statuses[i + 1..j];
  }

  /** Between `wc-pending` at `i` and the existing entry at `j`, the loop copies. */
  lemma MoveCopiesMiddle(statuses: StatusList, i: nat, j: nat)
    requires DistinctKeys(statuses)
    requires i < j < |statuses| && statuses[i].0 == PendingStatus && statuses[j].0 == BlockchainPendingStatus
    ensures AddStatusFrom(statuses[..i + 1] + [(BlockchainPendingStatus, BlockchainPendingLabel)], statuses[i + 1..j])
         == statuses[..i + 1] + [(BlockchainPendingStatus, BlockchainPendingLabel)] + statuses[i + 1..j]
  {
    var acc := statuses[..i + 1] + [(BlockchainPendingStatus, BlockchainPendingLabel)];
    var mid := statuses[i + 1..j];
    assert forall t :: 0 <= t < |mid| ==> mid[t].0 != PendingStatus by {
      forall t | 0 <= t < |mid|
        ensures mid[t].0 != PendingStatus
      {
        assert mid[t] == statuses[i + 1 + t];
        assert statuses[i + 1 + t].0 != statuses[i].0;
      }
    }
    MoveMiddleDistinct(statuses, i, j);
    AddStatusFromCopiesAll(acc, mid);
  }

  /** The accumulator before and after the loop meets the existing entry at
      `j`: they differ only right after `wc-pending`, the one place with that key. */
  lemma MoveLayout(statuses: StatusList, i: nat, j: nat)
    requires DistinctKeys(statuses)
    requires i < j < |statuses| && statuses[j].0 == BlockchainPendingStatus
    ensures var x := statuses[..i + 1] + [(BlockchainPendingStatus, BlockchainPendingLabel)] + statuses[i + 1..j];
      var y := statuses[..i + 1] + [statuses[j]] + statuses[i + 1..j];
      && |x| == |y| && i + 1 < |x| && x[i + 1].0 == BlockchainPendingStatus && y[i + 1] == statuses[j]
      && forall k :: 0 <= k < |x| && k != i + 1 ==> x[k] == y[k] && x[k].0 != BlockchainPendingStatus
  {
    var x := statuses[..i + 1] + [(BlockchainPendingStatus, BlockchainPendingLabel)] + statuses[i + 1..j];
    var y := statuses[..i + 1] + [statuses[j]] + statuses[i + 1..j];
    forall k | 0 <= k < |x| && k != i + 1
      ensures x[k] == y[k] && x[k].0 != BlockchainPendingStatus
    {
      var k' := if k <= i then k else k - 1;
      assert x[k] == statuses[k'] && y[k] == statuses[k'];
      assert statuses[k'].0 != statuses[j].0;
    }
  }

  /** At the existing entry, the loop overwrites the label of the new status
      with the input's, in place right after `wc-pending`. */
  lemma MoveOverwritesLabel(statuses: StatusList, i: nat, j: nat)
    requires DistinctKeys(statuses)
    requires i < j < |statuses| && statuses[i].0 == PendingStatus && statuses[j].0 == BlockchainPendingStatus
    ensures AddStatusFrom(statuses[..i + 1] + [(BlockchainPendingStatus, BlockchainPendingLabel)] + statuses[i + 1..j], statuses[j..])
         == AddStatusFrom(statuses[..i + 1] + [statuses[j]] + statuses[i + 1..j], statuses[j + 1..])
  {
    var x := statuses[..i + 1] + [(BlockchainPendingStatus, BlockchainPendingLabel)] + statuses[i + 1..j];
    var y := statuses[..i + 1] + [statuses[j]] + statuses[i + 1..j];
    var rest := statuses[j..];
    assert rest[0] == statuses[j];
    assert rest[1..] == statuses[j + 1..];
    MoveLayout(statuses, i, j);
    assert Keys(x)[i + 1] == BlockchainPendingStatus;
    assert Put(x, statuses[j].0, statuses[j].1) == y;
  }

  /** After the existing entry, the loop copies the remaining entries. */
  lemma MoveCopiesTail(statuses: StatusList, i: nat, j: nat)
    requires DistinctKeys(statuses)
    requires i < j < |statuses| && statuses[i].0 == PendingStatus
    ensures AddStatusFrom(statuses[..i + 1] + [statuses[j]] + statuses[i + 1..j], statuses[j + 1..])
         == MoveAfter(statuses, i, j)
  {
    var acc := statuses[..i + 1] + [statuses[j]] + statuses[i + 1..j];
    var tail := statuses[j + 1..];
    assert acc + tail == MoveAfter(statuses, i, j);
    MoveAfterDistinct(statuses, i, j);
    forall t | 0 <= t < |tail|
      ensures tail[t].0 != PendingStatus
    {
      assert tail[t] == statuses[j + 1 + t];
      assert statuses[j + 1 + t].0 != statuses[i].0;
    }
    AddStatusFromCopies(acc, tail, |tail|);
    assert tail[..|tail|] == tail;
    assert tail[|tail|..] == [];
  }

  /** When the input lists the blockchain-pending status at `j`, after
      `wc-pending` at `i`, that entry moves right after `wc-pending` and keeps
      the input's label. */
  lemma AddStatusMovesExisting(statuses: StatusList, i: nat, j: nat)
    requires DistinctKeys(statuses)
    requires i < j < |statuses| && statuses[i].0 == PendingStatus && statuses[j].0 == BlockchainPendingStatus
    ensures AddStatus(statuses) == MoveAfter(statuses, i, j)
  {
    var acc := statuses[..i + 1] + [(BlockchainPendingStatus, BlockchainPendingLabel)];
    var mid := statuses[i + 1..j];
    assert statuses[i + 1..] == mid + statuses[j..];
    assert AddStatus(statuses) == AddStatusFrom(acc, mid + statuses[j..]) by {
      forall k | 0 <= k < i
        ensures statuses[k].0 != BlockchainPendingStatus
      {
        assert statuses[k].0 != statuses[j].0;
      }
      AddStatusCopiesPrefix(statuses, i);
      AddStatusAtPending(statuses, i);
    }
    assert AddStatusFrom(acc, mid + statuses[j..]) == AddStatusFrom(acc + mid, statuses[j..]) by {
      AddStatusFromConcat(acc, mid, statuses[j..]);
      MoveCopiesMiddle(statuses, i, j);
    }
    MoveOverwritesLabel(statuses, i, j);
    MoveCopiesTail(statuses, i, j);
  }

  // ---------------------------------------------------------------------------
  // List filters
  // ---------------------------------------------------------------------------

  /** `open_wc_status_valid_for_payment($statuses, $order)`; the order is unused. */
  function StatusValidForPayment(statuses: seq<string>): (r: seq<string>)
    ensures |r| == |statuses| + 1
    ensures r[..|statuses|] == statuses
    ensures r[|statuses|] == BlockchainPendingStatus
  {
    statuses + [BlockchainPendingStatus]
  }

  const GatewayClass := "WC_Gateway_Open"

  /** `open_wc_add_open_class($methods)`. */
  function AddOpenClass(methods: seq<string>): (r: seq<string>)
    ensures |r| == |methods| + 1
    ensures r[..|methods|] == methods
    ensures r[|methods|] == GatewayClass
  {
    methods + [GatewayClass]
  }

  // ---------------------------------------------------------------------------
  // Scheduling
  // ---------------------------------------------------------------------------

  /** An entry of WordPress's cron schedule. */
  datatype ScheduledEvent = ScheduledEvent(timestamp: int, recurrence: string)

  /** The cron schedule, one event per hook. */
  type Schedule = map<string, ScheduledEvent>

  const CheckOrdersHook := "open_check_orders"

  /** `open_activation()`: schedule the hourly poll at `now` unless one is
      already scheduled. */
  function Activate(s: Schedule, now: int): (r: Schedule)
    ensures CheckOrdersHook in r
    ensures CheckOrdersHook in s ==> r == s
    ensures CheckOrdersHook !in s ==> r[CheckOrdersHook] == ScheduledEvent(now, "hourly")
    ensures forall h :: h != CheckOrdersHook ==> (h in r <==> h in s) && (h in s ==> r[h] == s[h])
  {
    if CheckOrdersHook in s then s else s[CheckOrdersHook := ScheduledEvent(now, "hourly")]
  }

  /** `open_deactivation()`: clear the poll's hook. */
  function Deactivate(s: Schedule): (r: Schedule)
    ensures CheckOrdersHook !in r
    ensures forall h :: h != CheckOrdersHook ==> (h in r <==> h in s) && (h in s ==> r[h] == s[h])
  {
    s - {CheckOrdersHook}
  }

  /** Activating again, at any later time, changes nothing. */
  lemma ActivateIsIdempotent(s: Schedule, now1: int, now2: int)
    ensures Activate(Activate(s, now1), now2) == Activate(s, now1)
  {
  }

  /** Deactivation undoes a fresh activation. */
  lemma DeactivateUndoesActivate(s: Schedule, now: int)
    requires CheckOrdersHook !in s
    ensures Deactivate(Activate(s, now)) == s
  {
  }
}
