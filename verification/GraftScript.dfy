/**
The graft as it runs (scripts/graft_mtp78.py), on a model directory it changes file by file. The process may
be killed: `budget` is how many of its atomic steps it gets to take.
*/
module GraftScript {
  import opened Options
  import opened Graft

  lemma {:induction false} TotalSizeWithout(names: set<string>, name: string, tensors: Tensors, overlay: Overlay)
    requires name in names
    ensures TotalSize(names, tensors, overlay) ==
            Plus(SizeOf(name, tensors, overlay), TotalSize(names - {name}, tensors, overlay))
    decreases |names|
  {
    hide SizeOf;
    var other :| other in names &&
      TotalSize(names, tensors, overlay) ==
      Plus(SizeOf(other, tensors, overlay), TotalSize(names - {other}, tensors, overlay));
    if other != name {
      TotalSizeWithout(names - {other}, name, tensors, overlay);
      TotalSizeWithout(names - {name}, other, tensors, overlay);
      assert names - {other} - {name} == names - {name} - {other};
      PlusSwaps(SizeOf(other, tensors, overlay), SizeOf(name, tensors, overlay),
                TotalSize(names - {name} - {other}, tensors, overlay));
    } else {
      assert other == name;
    }
  }

  lemma PlusSwaps(a: Option<nat>, b: Option<nat>, c: Option<nat>)
    ensures Plus(a, Plus(b, c)) == Plus(b, Plus(a, c))
  {
  }

  /** The total size of the named shards; None when one is missing. */
  method SumSizes(names: set<string>, tensors: Tensors, overlay: Overlay) returns (total: Option<nat>)
    ensures total == TotalSize(names, tensors, overlay)
  {
    hide SizeOf;
    var rest, sum := names, 0;
    while rest != {}
      invariant rest <= names
      invariant TotalSize(names, tensors, overlay) == Plus(Some(sum), TotalSize(rest, tensors, overlay))
      decreases |rest|
    {
      var name :| name in rest;
      TotalSizeWithout(rest, name, tensors, overlay);
      var size := SizeOf(name, tensors, overlay);
      if size.None? {
        return None;
      }
      sum, rest := sum + size.value, rest - {name};
    }
    total := Some(sum);
  }

  method FilterIgnores(entries: seq<string>) returns (kept: seq<string>)
    ensures kept == KeptIgnores(entries)
  {
    kept := [];
    for i := 0 to |entries|
      invariant kept == KeptIgnores(entries[..i])
    {
      assert entries[..i + 1][..i] == entries[..i];
      if !Mentions(entries[i], LAYER78) {
        kept := kept + [entries[i]];
      }
    }
    assert entries[..|entries|] == entries;
  }

  /** The range and the ignore list of one section; None where its tail has no range to read. */
  method GraftSection(s: Section) returns (r: Option<Section>)
    ensures r == if Readable(s) then Some(GraftedSection(s)) else None
  {
    var g := s;
    if s.tail.Some? && s.tail.value.None? {
      return None;
    }
    if s.tail.Some? && s.tail.value.Some? && s.tail.value.value.1 < 78 {
      g := g.(tail := Some(Some((s.tail.value.value.0, 78))));
    }
    if s.quant.Some? {
      var kept := FilterIgnores(if s.quant.value.Some? then s.quant.value.value else []);
      g := g.(quant := Some(Some(kept)));
    }
    r := Some(g);
  }

  class ModelDirectory {
    var live: map<Which, Content>
    var orig: map<Which, Content>
    var marker: bool

    ghost function View(): ModelDir
      reads this
    {
      ModelDir(live, orig, marker)
    }

    method BuildShard(overlay: Overlay) returns (file: Content)
      requires Shaped(orig)
      ensures Grafted(orig, overlay, LShard) == Some(file)
    {
      file := ShardFile(GraftedTensors(orig[LShard].tensors, overlay.tensors));
    }

    method BuildIndex(overlay: Overlay) returns (file: Option<Content>)
      requires Shaped(orig)
      ensures file == Grafted(orig, overlay, Idx)
    {
      var tensors := GraftedTensors(orig[LShard].tensors, overlay.tensors);
      var weights := GraftedWeights(orig[Idx].weights, tensors);
      var total := SumSizes(weights.Values, tensors, overlay);
      if total.None? {
        return None;
      }
      file := Some(IndexFile(weights, total.value));
    }

    method BuildConfig(ghost overlay: Overlay) returns (file: Option<Content>)
      requires Shaped(orig)
      ensures file == Grafted(orig, overlay, Cfg)
    {
      hide GraftedSection;
      var c := orig[Cfg];
      var own := GraftSection(c.own);
      if own.None? {
        return None;
      }
      var text: Option<Section> := None;
      if c.text.Some? {
        text := GraftSection(c.text.value);
        if text.None? {
          return None;
        }
      }
      file := Some(ConfigFile(own.value, text, c.rest));
    }

    /** Backups first, then each file rebuilt from its backup and replaced, the marker last. */
    method Forward(overlay: Overlay, budget: nat) returns (steps: nat)
      requires live.Keys == {LShard, Idx, Cfg}
      modifies this
      ensures ForwardRun(old(View()), overlay, Cut(budget, 7)) == (View(), steps)
    {
      hide Grafted, ForwardRun;
      ghost var d, n := View(), Cut(budget, 7);
      steps := 0;
      ForwardNone(d, overlay);
      for i := 0 to 3
        invariant steps == i <= n && ForwardRun(d, overlay, steps) == (View(), steps)
        invariant live == old(live) && forall j :: 0 <= j < i ==> FILES[j] in orig
      {
        if steps == budget {
          return;
        }
        ghost var now := View();
        if FILES[i] !in orig {
          orig := orig[FILES[i] := live[FILES[i]]];
        }
        ForwardNext(d, overlay, i, now, View());
        steps := steps + 1;
      }
      if steps == budget || !Shaped(orig) {
        ForwardStuck(d, overlay, steps, n);
        return;
      }
      var shard := BuildShard(overlay);
      ghost var d3 := View();
      live := live[LShard := shard];
      steps := 4;
      ForwardNext(d, overlay, 3, d3, View());
      if steps == budget {
        return;
      }
      var index := BuildIndex(overlay);
      if index.None? {
        ForwardStuck(d, overlay, steps, n);
        return;
      }
      ghost var d4 := View();
      live := live[Idx := index.value];
      steps := 5;
      ForwardNext(d, overlay, 4, d4, View());
      if steps == budget {
        return;
      }
      var config := BuildConfig(overlay);
      if config.None? {
        ForwardStuck(d, overlay, steps, n);
        return;
      }
      ghost var d5 := View();
      live := live[Cfg := config.value];
      steps := 6;
      ForwardNext(d, overlay, 5, d5, View());
      if steps == budget {
        return;
      }
      ghost var d6 := View();
      marker := true;
      steps := 7;
      ForwardNext(d, overlay, 6, d6, View());
    }

    method Undo(budget: nat)
      modifies this
      ensures View() == RevertRun(old(View()), Cut(budget, 4))
    {
      ghost var d := View();
      for i := 0 to 3
        invariant i <= budget && View() == RevertRun(d, i)
      {
        if i == budget {
          return;
        }
        if FILES[i] in orig {
          live, orig := live[FILES[i] := orig[FILES[i]]], orig - {FILES[i]};
        }
      }
      if budget > 3 {
        marker := false;
      }
    }
  }

  lemma {:induction false} ForwardNone(d: ModelDir, overlay: Overlay)
    ensures ForwardRun(d, overlay, 0) == (d, 0)
  {
  }

  lemma ForwardNext(d: ModelDir, overlay: Overlay, k: nat, now: ModelDir, next: ModelDir)
    requires k < 7 && ForwardRun(d, overlay, k) == (now, k) && ForwardStep(now, overlay, k) == Some(next)
    ensures ForwardRun(d, overlay, k + 1) == (next, k + 1)
  {
  }

  /** A run that cannot take its next step stays where it is. */
  lemma {:induction false} ForwardStuck(d: ModelDir, overlay: Overlay, k: nat, n: nat)
    requires k <= n <= 7 && ForwardRun(d, overlay, k).1 == k
    requires k < n ==> ForwardStep(ForwardRun(d, overlay, k).0, overlay, k).None?
    ensures ForwardRun(d, overlay, n) == ForwardRun(d, overlay, k)
  {
    hide ForwardStep;
    if k < n {
      ForwardStuck(d, overlay, k, k);
      StuckOn(d, overlay, k, n);
    }
  }

  lemma {:induction false} StuckOn(d: ModelDir, overlay: Overlay, k: nat, n: nat)
    requires k < n <= 7 && ForwardRun(d, overlay, k).1 == k
    requires ForwardStep(ForwardRun(d, overlay, k).0, overlay, k).None?
    ensures ForwardRun(d, overlay, n) == ForwardRun(d, overlay, k)
  {
    hide ForwardStep;
    if k + 1 < n {
      StuckOn(d, overlay, k, n - 1);
    }
  }
}
