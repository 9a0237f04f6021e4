/** The tabular Q-learning agent: a table from state keys (the flattened
    grid) to per-action value estimates, epsilon-greedy action selection and
    the one-step temporal-difference update. The exploration coin and the
    random choices are passed in as parameters. */
module QLearning {
  import opened Board

  type Values = map<int, real>
  type QTable = map<seq<int>, Values>

  /** `{action: 0 for action in range(n)}`. */
  function ZeroValues(n: nat): (values: Values)
    ensures forall a :: a in values <==> 0 <= a < n
    ensures forall a :: a in values ==> values[a] == 0.0
  {
    if n == 0 then map[] else ZeroValues(n - 1)[n - 1 := 0.0]
  }

  /** The lazy initialisation of a state: insert `key` with every action in
      [0, n) valued 0 if it is absent, and change nothing otherwise. */
  function EnsureState(table: QTable, key: seq<int>, n: nat): (t: QTable)
    ensures t.Keys == table.Keys + {key}
    ensures forall k :: k in table ==> t[k] == table[k]
    ensures key !in table ==> t[key] == ZeroValues(n)
  {
    if key in table then table else table[key := ZeroValues(n)]
  }

  /** `values.get(action, 0)`. */
  function ValueOf(values: Values, action: int): real
  {
    if action in values then values[action] else 0.0
  }

  /** The position picked by `max(action_values, key=action_values.get)`
      over `actions` in order: Python's `max` keeps the first maximum and
      only moves on a strictly larger value. */
  function Greedy(values: Values, actions: seq<int>): (i: nat)
    requires |actions| > 0
    ensures i < |actions|
    ensures forall j :: 0 <= j < |actions| ==> ValueOf(values, actions[j]) <= ValueOf(values, actions[i])
    ensures forall j :: 0 <= j < i ==> ValueOf(values, actions[j]) < ValueOf(values, actions[i])
  {
    if |actions| == 1 then 0
    else
      var n := |actions| - 1;
      var best := Greedy(values, actions[..n]);
      assert actions[..n][best] == actions[best];
      if ValueOf(values, actions[n]) > ValueOf(values, actions[best]) then n else best
  }

  /** `a` is an empty cell of highest value, and every empty cell before it
      has a strictly lower value. */
  predicate IsFirstBest(values: Values, cells: seq<int>, a: int)
  {
    && 0 <= a < |cells| && cells[a] == 0
    && forall b :: 0 <= b < |cells| && cells[b] == 0 ==>
         ValueOf(values, b) <= ValueOf(values, a) && (b < a ==> ValueOf(values, b) < ValueOf(values, a))
  }

  /** The greedy choice over the empty cells is their first best cell. */
  lemma GreedyIsFirstBest(values: Values, cells: seq<int>)
    requires EmptyCells(cells) != []
    ensures var empty := EmptyCells(cells);
      IsFirstBest(values, cells, empty[Greedy(values, empty)])
  {
    var empty := EmptyCells(cells);
    var i := Greedy(values, empty);
    var a := empty[i];
    forall b | 0 <= b < |cells| && cells[b] == 0
      ensures ValueOf(values, b) <= ValueOf(values, a) && (b < a ==> ValueOf(values, b) < ValueOf(values, a))
    {
      var j :| 0 <= j < |empty| && empty[j] == b;
      if b < a {
        assert j < i;
      }
    }
  }

  /** Every non-empty value map has an entry no other entry exceeds. */
  lemma {:induction false} MaxEntry(values: Values)
    requires values != map[]
    ensures exists k :: k in values && forall a :: a in values ==> values[a] <= values[k]
    decreases |values|
  {
    if forall a :: a !in values {
      assert false;
    }
    var k :| k in values;
    var rest := values - {k};
    if exists a :: a in values && a != k {
      var other :| other in values && other != k;
      assert other in rest;
      MaxEntry(rest);
      var j :| j in rest && forall a :: a in rest ==> rest[a] <= rest[j];
      if values[k] <= values[j] {
        assert forall a :: a in values ==> values[a] <= values[j] by {
          forall a | a in values ensures values[a] <= values[j] {
            if a != k {
              assert a in rest;
            }
          }
        }
      } else {
        assert forall a :: a in values ==> values[a] <= values[k] by {
          forall a | a in values ensures values[a] <= values[k] {
            if a != k {
              assert a in rest;
            }
          }
        }
      }
    }
  }

  /** `max(values.values())`. */
  function MaxValue(values: Values): (m: real)
    requires values != map[]
    ensures m in values.Values
    ensures forall a :: a in values ==> values[a] <= m
  {
    MaxEntry(values);
    var k :| k in values && forall a :: a in values ==> values[a] <= values[k];
    assert values[k] in values.Values;
    var m :| m in values.Values && forall a :: a in values ==> values[a] <= m;
    m
  }

  /** `max_next_q`: 0 when the episode is done, otherwise the largest value
      recorded for the next state, legal action or not. */
  function Bootstrap(table: QTable, nextKey: seq<int>, done: bool): (m: real)
    requires done || (nextKey in table && table[nextKey] != map[])
    ensures done ==> m == 0.0
    ensures !done ==> m in table[nextKey].Values
    ensures !done ==> forall a :: a in table[nextKey] ==> table[nextKey][a] <= m
  {
    if done then 0.0 else MaxValue(table[nextKey])
  }

  /** The temporal-difference target `reward + gamma * max_next_q`. */
  function TdTarget(reward: real, gamma: real, maxNext: real): real
  {
    reward + gamma * maxNext
  }

  /** The temporal-difference update `q + alpha * (target - q)`. */
  function TdUpdate(q: real, target: real, alpha: real): real
  {
    q + alpha * (target - q)
  }

  /** With a learning rate 0 < alpha <= 1 the update moves q towards the
      target without overshooting it, shrinking the distance by the factor
      1 - alpha; a value already at the target stays there. */
  lemma TdUpdateMovesTowardTarget(q: real, target: real, alpha: real)
    ensures var r := TdUpdate(q, target, alpha);
      && (0.0 < alpha <= 1.0 && q <= target ==> q <= r <= target)
      && (0.0 < alpha <= 1.0 && target <= q ==> target <= r <= q)
      && r - target == (1.0 - alpha) * (q - target)
      && (q == target ==> r == q)
  {
    var d := target - q;
    var r := TdUpdate(q, target, alpha);
    assert r == q + alpha * d;
    assert r - target == (1.0 - alpha) * (q - target) by {
      assert r - target == alpha * d - d;
    }
    NonnegProduct(alpha, d);
    NonnegProduct(alpha, -d);
    NonnegProduct(1.0 - alpha, d);
    NonnegProduct(1.0 - alpha, -d);
  }

  lemma NonnegProduct(a: real, b: real)
    ensures a >= 0.0 && b >= 0.0 ==> a * b >= 0.0
  {
  }

  /** The table `learn` leaves: the next state initialised (over as many
      actions as the current observation has cells), then the one entry
      `table[key][action]` replaced by its update. */
  function Learned(table: QTable, alpha: real, gamma: real, key: seq<int>, action: int,
                   reward: real, nextKey: seq<int>, done: bool, n: nat): (t: QTable)
    requires var t1 := EnsureState(table, nextKey, n);
      key in t1 && action in t1[key] && (done || t1[nextKey] != map[])
    ensures t.Keys == table.Keys + {nextKey}
    ensures nextKey !in table && nextKey != key ==> t[nextKey] == ZeroValues(n)
    ensures forall k :: k in table && k != key ==> t[k] == table[k]
    ensures t[key].Keys == EnsureState(table, nextKey, n)[key].Keys
    ensures forall a :: a in t[key] && a != action ==> t[key][a] == EnsureState(table, nextKey, n)[key][a]
    ensures var t1 := EnsureState(table, nextKey, n);
      t[key][action] == TdUpdate(t1[key][action], TdTarget(reward, gamma, Bootstrap(t1, nextKey, done)), alpha)
  {
    var t1 := EnsureState(table, nextKey, n);
    var updated := TdUpdate(t1[key][action], TdTarget(reward, gamma, Bootstrap(t1, nextKey, done)), alpha);
    var row := t1[key][action := updated];
    assert row[action] == updated;
    t1[key := row]
  }

  class TicTacToeAgent {
    var qTable: QTable
    /** Learning rate, exploration rate and discount factor. */
    const alpha: real
    const epsilon: real
    const gamma: real

    constructor (alpha: real, epsilon: real, gamma: real)
      ensures qTable == map[]
      ensures this.alpha == alpha && this.epsilon == epsilon && this.gamma == gamma
    {
      qTable := map[];
      this.alpha := alpha;
      this.epsilon := epsilon;
      this.gamma := gamma;
    }

    /** `choose_action`: initialise the state, then explore (when the coin
        falls below epsilon) with the `pick`-th empty cell, or exploit with
        the first empty cell of highest value. */
    method ChooseAction(observation: seq<int>, coin: real, pick: nat) returns (action: int)
      requires EmptyCells(observation) != []
      requires coin < epsilon ==> pick < |EmptyCells(observation)|
      modifies this
      ensures qTable == EnsureState(old(qTable), observation, |observation|)
      ensures old(qTable).Keys <= qTable.Keys
      ensures 0 <= action < |observation| && observation[action] == 0
      ensures coin < epsilon ==> action == EmptyCells(observation)[pick]
      ensures coin >= epsilon ==> IsFirstBest(qTable[observation], observation, action)
    {
      var stateKey := observation;
      if stateKey !in qTable {
        qTable := qTable[stateKey := ZeroValues(|observation|)];
      }
      assert qTable == EnsureState(old(qTable), observation, |observation|);
      var possibleActions := EmptyCells(observation);
      if coin < epsilon {
        action := possibleActions[pick];
      } else {
        var i := Greedy(qTable[stateKey], possibleActions);
        action := possibleActions[i];
        GreedyIsFirstBest(qTable[stateKey], observation);
      }
    }

    /** `learn`: initialise the next state, then apply one TD update to
        `q_table[state_key][action]`. */
    method Learn(observation: seq<int>, action: int, reward: real, nextObservation: seq<int>, done: bool)
      requires var t1 := EnsureState(qTable, nextObservation, |observation|);
        observation in t1 && action in t1[observation] && (done || t1[nextObservation] != map[])
      modifies this
      ensures qTable == Learned(old(qTable), alpha, gamma, observation, action, reward,
                                nextObservation, done, |observation|)
      ensures old(qTable).Keys <= qTable.Keys
    {
      var stateKey := observation;
      var nextStateKey := nextObservation;
      if nextStateKey !in qTable {
        qTable := qTable[nextStateKey := ZeroValues(|observation|)];
      }
      ghost var t1 := qTable;
      assert t1 == EnsureState(old(qTable), nextObservation, |observation|);
      var maxNextQ := if !done then MaxValue(qTable[nextStateKey]) else 0.0;
      assert maxNextQ == Bootstrap(t1, nextStateKey, done);
      var q := qTable[stateKey][action];
      var target := reward + gamma * maxNextQ;
      assert target == TdTarget(reward, gamma, Bootstrap(t1, nextStateKey, done));
      var updated := q + alpha * (target - q);
      assert updated == TdUpdate(q, target, alpha);
      qTable := qTable[stateKey := qTable[stateKey][action := updated]];
      assert qTable == t1[stateKey := t1[stateKey][action := updated]];
      assert Learned(old(qTable), alpha, gamma, observation, action, reward, nextObservation, done, |observation|)
        == t1[stateKey := t1[stateKey][action := updated]];
    }
  }
}
