/** Python dict assignment: a run of `d[key] = value` writes, in order. */
module PyDict {

  /** A dict after the given writes, starting empty. */
  function Store<V>(ws: seq<(string, V)>): map<string, V>
    decreases |ws|
  {
    if |ws| == 0 then map[] else Store(ws[..|ws| - 1])[ws[|ws| - 1].0 := ws[|ws| - 1].1]
  }

  /** The dict holds exactly the written keys, and each holds the value of
      its last write. */
  lemma StoreLastWrite<V>(ws: seq<(string, V)>)
    ensures forall k :: k in Store(ws) <==> exists i :: 0 <= i < |ws| && ws[i].0 == k
    ensures forall i :: 0 <= i < |ws| && (forall j :: i < j < |ws| ==> ws[j].0 != ws[i].0) ==>
      ws[i].0 in Store(ws) && Store(ws)[ws[i].0] == ws[i].1
  {
    StoreKeys(ws);
    forall i | 0 <= i < |ws| && (forall j :: i < j < |ws| ==> ws[j].0 != ws[i].0)
      ensures ws[i].0 in Store(ws) && Store(ws)[ws[i].0] == ws[i].1
    {
      StoreLast(ws, i);
    }
  }

  lemma {:induction false} StoreKeys<V>(ws: seq<(string, V)>)
    ensures forall k :: k in Store(ws) <==> exists i :: 0 <= i < |ws| && ws[i].0 == k
    decreases |ws|
  {
    if |ws| > 0 {
      var init := ws[..|ws| - 1];
      var last := ws[|ws| - 1];
      StoreKeys(init);
      assert Store(ws) == Store(init)[last.0 := last.1];
      forall k ensures k in Store(ws) <==> exists i :: 0 <= i < |ws| && ws[i].0 == k {
        if k in Store(init) {
          var i :| 0 <= i < |init| && init[i].0 == k;
          assert ws[i].0 == k;
        } else if k != last.0 {
          forall i | 0 <= i < |ws| ensures ws[i].0 != k {
            if i < |init| {
              assert ws[i] == init[i];
            }
          }
        }
      }
    }
  }

  lemma {:induction false} StoreLast<V>(ws: seq<(string, V)>, i: nat)
    requires i < |ws| && forall j :: i < j < |ws| ==> ws[j].0 != ws[i].0
    ensures ws[i].0 in Store(ws) && Store(ws)[ws[i].0] == ws[i].1
    decreases |ws|
  {
    var init := ws[..|ws| - 1];
    var last := ws[|ws| - 1];
    assert Store(ws) == Store(init)[last.0 := last.1];
    if i < |init| {
      assert init[i] == ws[i];
      forall j | i < j < |init| ensures init[j].0 != init[i].0 {
        assert init[j] == ws[j];
      }
      StoreLast(init, i);
    }
  }

  /** A key of the dict holds one of the values written under it. */
  lemma {:induction false} StoreValueWritten<V>(ws: seq<(string, V)>, k: string)
    requires k in Store(ws)
    ensures exists i :: 0 <= i < |ws| && ws[i] == (k, Store(ws)[k])
    decreases |ws|
  {
    var n := |ws| - 1;
    if ws[n].0 != k {
      StoreValueWritten(ws[..n], k);
      var i :| 0 <= i < n && ws[..n][i] == (k, Store(ws[..n])[k]);
      assert ws[i] == ws[..n][i];
    }
  }
}
