/** The frequency map as the chart code literally builds it: a plain object
    literal `{}` whose lookups fall through to `Object.prototype`.  The only
    inherited property a token can name is `constructor` (tokens are
    lower-case and have `_` stripped), and for it `freqMap[w] || 0` reads the
    built-in `Object` function instead of 0.  `WordGraph.Tally` is the
    corrected counting that the rest of the model uses. */
module WordGraphAsWritten {
  import opened Text
  import opened WordGraph
  import opened WordGraphExamples

  /** The JavaScript values the tally can hold. */
  datatype JsValue = Undefined | NaN | Num(n: int) | Str(s: string) | NativeFn(source: string)

  /** What `String(Object)` yields. */
  const ObjectSource := "function Object() { [native code] }"

  /** The one lower-case, underscore-free property on `Object.prototype`. */
  const InheritedKey := "constructor"

  predicate Truthy(v: JsValue) {
    match v
    case Undefined => false
    case NaN => false
    case Num(n) => n != 0
    case Str(s) => s != []
    case NativeFn(_) => true
  }

  /** `v || 0`. */
  function OrZero(v: JsValue): (r: JsValue)
    ensures Truthy(v) ==> r == v
    ensures !Truthy(v) ==> r == Num(0)
  {
    if Truthy(v) then v else Num(0)
  }

  /** `v + 1`: numbers add, anything string-like concatenates "1". */
  function PlusOne(v: JsValue): (r: JsValue)
    ensures v.Num? ==> r == Num(v.n + 1)
    ensures v.Str? ==> r == Str(v.s + "1")
    ensures v.NativeFn? ==> r == Str(v.source + "1")
    ensures v.Undefined? || v.NaN? ==> r == NaN
  {
    match v
    case Undefined => NaN
    case NaN => NaN
    case Num(n) => Num(n + 1)
    case Str(s) => Str(s + "1")
    case NativeFn(src) => Str(src + "1")
  }

  /** An own property of the object literal, in insertion order. */
  datatype Slot = Slot(key: string, value: JsValue)

  function Keys(o: seq<Slot>): (r: seq<string>)
    ensures |r| == |o| && forall i :: 0 <= i < |o| ==> r[i] == o[i].key
  {
    seq(|o|, i requires 0 <= i < |o| => o[i].key)
  }

  /** What `{}[k]` yields when `k` is not an own property. */
  function Inherited(k: string): (r: JsValue)
    ensures r != Undefined <==> k == InheritedKey
  {
    if k == InheritedKey then NativeFn(ObjectSource) else Undefined
  }

  /** `o[k]`: the own property if there is one, else the prototype's. */
  function Get(o: seq<Slot>, k: string): (r: JsValue)
    ensures k !in Keys(o) ==> r == Inherited(k)
  {
    if |o| == 0 then Inherited(k)
    else if o[0].key == k then o[0].value
    else
      assert Keys(o)[1..] == Keys(o[1..]);
      Get(o[1..], k)
  }

  /** A lookup finds the first own slot with that key. */
  lemma {:induction false} GetFirstOwn(o: seq<Slot>, k: string, i: nat)
    requires i < |o| && o[i].key == k && k !in Keys(o[..i])
    ensures Get(o, k) == o[i].value
  {
    if i > 0 {
      assert Keys(o[..i])[0] == o[0].key;
      var tail := Keys(o[1..][..i - 1]);
      assert forall j | 0 <= j < i - 1 :: tail[j] == Keys(o[..i])[j + 1];
      GetFirstOwn(o[1..], k, i - 1);
    }
  }

  /** `o[k] = v`: overwrite in place, or append a new own property. */
  function Put(o: seq<Slot>, k: string, v: JsValue): (r: seq<Slot>)
    ensures k in Keys(o) ==> |r| == |o|
    ensures k !in Keys(o) ==> r == o + [Slot(k, v)]
    ensures forall i :: 0 <= i < |o| && o[i].key != k ==> r[i] == o[i]
    ensures k in Keys(o) ==> exists i :: 0 <= i < |o| && o[i].key == k && r[i] == Slot(k, v)
  {
    if |o| == 0 then [Slot(k, v)]
    else if o[0].key == k then [Slot(k, v)] + o[1..]
    else
      assert Keys(o)[1..] == Keys(o[1..]);
      [o[0]] + Put(o[1..], k, v)
  }

  /** A lookup after a store reads the stored value, and a store leaves the
      other keys' lookups alone. */
  lemma {:induction false} GetPut(o: seq<Slot>, k: string, v: JsValue, k2: string)
    ensures Get(Put(o, k, v), k) == v
    ensures k2 != k ==> Get(Put(o, k, v), k2) == Get(o, k2)
  {
    if |o| > 0 && o[0].key != k {
      GetPut(o[1..], k, v, k2);
    }
  }

  /** One `freqMap[w] = (freqMap[w] || 0) + 1`, as written. */
  function BumpAsWritten(o: seq<Slot>, w: string): (r: seq<Slot>)
    ensures Get(r, w) == PlusOne(OrZero(Get(o, w)))
    ensures |o| <= |r| <= |o| + 1
    ensures forall i :: 0 <= i < |o| && o[i].key != w ==> r[i] == o[i]
  {
    var v := PlusOne(OrZero(Get(o, w)));
    var r := Put(o, w, v);
    GetPut(o, w, v, w);
    r
  }

  /** The `words.forEach` loop, as written. */
  function TallyAsWritten(ws: seq<string>): (o: seq<Slot>)
    ensures |ws| == 0 ==> o == []
  {
    if |ws| == 0 then []
    else BumpAsWritten(TallyAsWritten(ws[..|ws| - 1]), ws[|ws| - 1])
  }

  /** A correct tally seen as object slots holding numbers. */
  function AsSlots(m: seq<WordCount>): (r: seq<Slot>)
    ensures |r| == |m|
    ensures forall i :: 0 <= i < |m| ==> r[i] == Slot(m[i].name, Num(m[i].value))
  {
    seq(|m|, i requires 0 <= i < |m| => Slot(m[i].name, Num(m[i].value)))
  }

  /** Away from `constructor`, one as-written step is one counting step. */
  lemma {:induction false} BumpAgrees(m: seq<WordCount>, w: string)
    requires DistinctNames(m) && w != InheritedKey
    ensures BumpAsWritten(AsSlots(m), w) == AsSlots(Bump(m, w))
  {
    var o := AsSlots(m);
    if |m| == 0 {
    } else if m[0].name == w {
      var t := m[1..];
      assert m == [m[0]] + t;
      assert Get(o, w) == Num(m[0].value);
      assert Bump(m, w) == [m[0].(value := m[0].value + 1)] + t;
      AsSlotsCons(m[0], t);
      AsSlotsCons(m[0].(value := m[0].value + 1), t);
    } else {
      var t := m[1..];
      assert DistinctNames(t);
      BumpAgrees(t, w);
      assert m == [m[0]] + t;
      assert Bump(m, w) == [m[0]] + Bump(t, w);
      AsSlotsCons(m[0], t);
      AsSlotsCons(m[0], Bump(t, w));
      BumpAsWrittenCons(o[0], AsSlots(t), w);
    }
  }

  lemma AsSlotsCons(x: WordCount, m: seq<WordCount>)
    ensures AsSlots([x] + m) == [Slot(x.name, Num(x.value))] + AsSlots(m)
  {
    var l, r := AsSlots([x] + m), [Slot(x.name, Num(x.value))] + AsSlots(m);
    assert forall i | 0 < i < |l| :: ([x] + m)[i] == m[i - 1];
    assert forall i | 0 <= i < |l| :: l[i] == r[i];
  }

  /** A step for another key passes over a leading property. */
  lemma BumpAsWrittenCons(h: Slot, o: seq<Slot>, w: string)
    requires h.key != w
    ensures BumpAsWritten([h] + o, w) == [h] + BumpAsWritten(o, w)
  {
    var ho := [h] + o;
    assert ho[1..] == o;
    assert Get(ho, w) == Get(o, w);
  }

  /** On token lists without `constructor` the code as written counts
      correctly. */
  lemma {:induction false} TallyAgrees(ws: seq<string>)
    requires InheritedKey !in ws
    ensures TallyAsWritten(ws) == AsSlots(Tally(ws))
  {
    if |ws| > 0 {
      var front := ws[..|ws| - 1];
      assert forall x :: x in front ==> x in ws;
      TallyAgrees(front);
      BumpAgrees(Tally(front), ws[|ws| - 1]);
    }
  }

  /** A lone lower-case word that passes both filters is its own token list. */
  lemma SingleWordTokens(w: string)
    requires w != [] && Letters(w) && Qualifies(w)
    ensures Tokens(w) == [w]
  {
    assert LowerWords(w);
    LowerWordsUnchanged(w);
    SplitWsLast(w);
    KeepCons(w, []);
    assert [w] + [] == [w];
  }

  lemma InheritedKeyIsWord()
    ensures InheritedKey != [] && Letters(InheritedKey) && Qualifies(InheritedKey)
  {
  }

  /** "constructor" is a word the chart would rank. */
  lemma ConstructorIsToken()
    ensures Tokens(InheritedKey) == [InheritedKey]
  {
    InheritedKeyIsWord();
    SingleWordTokens(InheritedKey);
  }

  /** The text "constructor" is charted with a string where a count belongs:
      the corrected tally holds 1. */
  lemma ConstructorCounterexample()
    ensures Tokens(InheritedKey) == [InheritedKey]
    ensures TallyAsWritten(Tokens(InheritedKey)) == [Slot(InheritedKey, Str(ObjectSource + "1"))]
    ensures Tally(Tokens(InheritedKey)) == [WordCount(InheritedKey, 1)]
  {
    ConstructorIsToken();
    var ws := [InheritedKey];
    ConstructorTalliedAsWritten();
    var m := Tally(ws);
    assert InheritedKey in Names(m);
    assert |m| == 1 by {
      DistinctNamesCardinality(m);
      assert (set x | x in Names(m)) <= {InheritedKey};
    }
    assert m[0].value == multiset(ws)[InheritedKey] == 1;
  }

  /** One as-written step on the empty object for "constructor". */
  lemma ConstructorTalliedAsWritten()
    ensures TallyAsWritten([InheritedKey]) == [Slot(InheritedKey, Str(ObjectSource + "1"))]
  {
    var ws := [InheritedKey];
    assert ws[..0] == [];
    assert Get([], InheritedKey) == NativeFn(ObjectSource);
  }
}
