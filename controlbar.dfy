/** The control bar's metric selection: toggling a metric id on and off,
    and the metrics offered as the primary one. */
module ControlBar {
  import Series
  import Text

  /** `ids.filter((id) => id !== x)`. */
  function Without(ids: seq<string>, x: string): (r: seq<string>)
    ensures |r| <= |ids|
    ensures forall y :: y in r <==> y in ids && y != x
  {
    if ids == [] then []
    else
      assert forall y :: y in ids <==> y == ids[0] || y in ids[1..];
      if ids[0] == x then Without(ids[1..], x)
      else [ids[0]] + Without(ids[1..], x)
  }

  /** `toggleMetric`: a selected id is removed, any other appended. */
  function ToggleMetric(selected: seq<string>, id: string): (r: seq<string>)
    ensures id in r <==> id !in selected
  {
    if id in selected then
      WithoutSpec(selected, id);
      assert multiset(Without(selected, id))[id] == 0;
      Without(selected, id)
    else selected + [id]
  }

  /** Removing drops every occurrence of `x` and nothing else, in order. */
  lemma {:induction false} WithoutSpec(ids: seq<string>, x: string)
    ensures Text.IsSubsequence(Without(ids, x), ids)
    ensures multiset(Without(ids, x)) == multiset(ids)[x := 0]
    ensures x !in ids ==> Without(ids, x) == ids
  {
    if ids != [] {
      WithoutSpec(ids[1..], x);
      assert ids == [ids[0]] + ids[1..];
      if ids[0] != x {
        var r := [ids[0]] + Without(ids[1..], x);
        assert r[1..] == Without(ids[1..], x);
      }
    }
  }

  /** Toggling an absent id appends it and leaves the rest as it was. */
  lemma ToggleAbsent(selected: seq<string>, id: string)
    requires id !in selected
    ensures ToggleMetric(selected, id) == selected + [id]
  {
  }

  /** Toggling a selected id removes every occurrence of it and keeps the
      others in their order. */
  lemma TogglePresent(selected: seq<string>, id: string)
    requires id in selected
    ensures id !in ToggleMetric(selected, id)
    ensures Text.IsSubsequence(ToggleMetric(selected, id), selected)
    ensures multiset(ToggleMetric(selected, id)) == multiset(selected)[id := 0]
  {
    WithoutSpec(selected, id);
    assert multiset(ToggleMetric(selected, id))[id] == 0;
  }

  /** Toggling flips whether `id` is selected and no other id's. */
  lemma ToggleFlips(selected: seq<string>, id: string, other: string)
    ensures id in ToggleMetric(selected, id) <==> id !in selected
    ensures other != id ==> (other in ToggleMetric(selected, id) <==> other in selected)
  {
    WithoutSpec(selected, id);
    assert multiset(Without(selected, id))[id] == 0;
    assert other != id ==> multiset(Without(selected, id))[other] == multiset(selected)[other];
  }

  /** Toggling an absent id twice gives back the original list. */
  lemma {:induction false} ToggleTwice(selected: seq<string>, id: string)
    requires id !in selected
    ensures ToggleMetric(ToggleMetric(selected, id), id) == selected
  {
    WithoutAppended(selected, id);
  }

  lemma {:induction false} WithoutAppended(ids: seq<string>, x: string)
    requires x !in ids
    ensures Without(ids + [x], x) == ids
  {
    if ids == [] {
      assert ids + [x] == [x];
    } else {
      assert (ids + [x])[1..] == ids[1..] + [x];
      WithoutAppended(ids[1..], x);
    }
  }

  /** `primaryOptions`: the catalog's metrics whose ids are selected. */
  function PrimaryOptions(metrics: seq<Series.Metric>, selected: seq<string>): (r: seq<Series.Metric>)
    ensures |r| <= |metrics|
    ensures forall m :: m in r <==> m in metrics && m.id in selected
  {
    if metrics == [] then []
    else
      assert forall m :: m in metrics <==> m == metrics[0] || m in metrics[1..];
      if metrics[0].id in selected then [metrics[0]] + PrimaryOptions(metrics[1..], selected)
      else PrimaryOptions(metrics[1..], selected)
  }

  /** The options are the selected metrics, in catalog order. */
  lemma {:induction false} PrimaryOptionsSpec(metrics: seq<Series.Metric>, selected: seq<string>, m: Series.Metric)
    ensures Text.IsSubsequence(PrimaryOptions(metrics, selected), metrics)
    ensures m in PrimaryOptions(metrics, selected) <==> m in metrics && m.id in selected
    ensures multiset(PrimaryOptions(metrics, selected))[m] == if m.id in selected then multiset(metrics)[m] else 0
  {
    if metrics != [] {
      PrimaryOptionsSpec(metrics[1..], selected, m);
      assert metrics == [metrics[0]] + metrics[1..];
      if metrics[0].id in selected {
        var r := [metrics[0]] + PrimaryOptions(metrics[1..], selected);
        assert r[1..] == PrimaryOptions(metrics[1..], selected);
      }
    }
  }
}
