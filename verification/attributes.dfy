/**
 * `Builder._convert_data_attributes`: turns the attributes of one markup
 * element into constructor arguments. An attribute whose lower-cased name
 * matches `^data-(\w+)` is replaced by an argument named after the captured
 * word, holding its value passed through the literal evaluator; every other
 * attribute is passed on as its raw text.
 *
 * The evaluator (`ast.literal_eval` in the source) is a parameter: a
 * function from text to a value, or `None` when the text is not a literal.
 */
module Attributes {
  import opened Results
  import opened Text

  /** A constructor argument: raw attribute text, or an evaluated literal. */
  datatype Arg<V> = Raw(text: string) | Literal(value: V)

  /** Why a conversion aborts: a `KeyError` on the lower-cased key, or an evaluator failure. */
  datatype ConvertError = MissingAttribute(key: string) | LiteralError(key: string, text: string)

  const DataPrefix: string := "data-"

  /** The length of the run of word characters that starts `s`. */
  function WordRun(s: string): (n: nat)
    ensures n <= |s|
    ensures forall i :: 0 <= i < n ==> IsWordChar(s[i])
    ensures n == |s| || !IsWordChar(s[n])
  {
    if s != [] && IsWordChar(s[0]) then 1 + WordRun(s[1..]) else 0
  }

  /**
   * Group 2 of `re.match(r"^(data-)(\w+)", key)`: present exactly when `key`
   * starts with `data-` followed by a word character, and then the longest
   * run of word characters after the prefix.
   */
  function DataName(key: string): (r: Option<string>)
    ensures r.Some? <==> |key| > |DataPrefix| && key[..|DataPrefix|] == DataPrefix && IsWordChar(key[|DataPrefix|])
    ensures r.Some? ==> && r.value != []
                        && |DataPrefix| + |r.value| <= |key|
                        && key[|DataPrefix|..|DataPrefix| + |r.value|] == r.value
                        && (forall i :: 0 <= i < |r.value| ==> IsWordChar(r.value[i]))
                        && (|DataPrefix| + |r.value| == |key| || !IsWordChar(key[|DataPrefix| + |r.value|]))
  {
    if |key| > |DataPrefix| && key[..|DataPrefix|] == DataPrefix then
      var rest := key[|DataPrefix|..];
      var n := WordRun(rest);
      if n == 0 then None else Some(rest[..n])
    else
      None
  }

  /** The argument name an attribute key generates, if its lower-cased form is a data key. */
  function NameOf(key: string): Option<string> {
    DataName(Lower(key))
  }

  /** A generated name never equals a data key: the name has no `-`, the key has one after `data`. */
  lemma NameIsNotDataKey(key: string, k: string)
    requires NameOf(key).Some? && DataName(k).Some?
    ensures NameOf(key).value != k
  {
    var w := NameOf(key).value;
    assert k[4] == '-';
    if |w| > 4 {
      assert IsWordChar(w[4]);
    }
  }

  /** The word run of `w + t` is all of `w` when `w` is made of word characters and `t` does not start with one. */
  lemma {:induction false} WordRunStops(w: string, t: string)
    requires forall i :: 0 <= i < |w| ==> IsWordChar(w[i])
    requires t == [] || !IsWordChar(t[0])
    ensures WordRun(w + t) == |w|
    decreases |w|
  {
    if w != [] {
      assert (w + t)[1..] == w[1..] + t;
      WordRunStops(w[1..], t);
    }
  }

  /** `data-` followed by a word and then a non-word character (or nothing) generates that word. */
  lemma DataNameOfWord(w: string, t: string)
    requires w != [] && forall i :: 0 <= i < |w| ==> IsWordChar(w[i])
    requires t == [] || !IsWordChar(t[0])
    ensures DataName(DataPrefix + w + t) == Some(w)
  {
    var key := DataPrefix + w + t;
    assert key[..|DataPrefix|] == DataPrefix;
    assert key[|DataPrefix|..] == w + t;
    WordRunStops(w, t);
    assert (w + t)[..|w|] == w;
  }

  // ---------------------------------------------------------------------------
  // The loop over the sorted keys
  // ---------------------------------------------------------------------------

  /** The loop's two accumulators: `generated_keys` and `converted_keys`. */
  datatype Pass<V> = Pass(generated: map<string, Arg<V>>, converted: set<string>)

  /** One loop iteration on `key`, which is looked up in its lower-cased form. */
  function Step<V>(attrs: map<string, string>, evaluate: string -> Option<V>, acc: Pass<V>, key: string)
    : Result<Pass<V>, ConvertError>
  {
    var k := Lower(key);
    match DataName(k)
    case None => Success(acc)
    case Some(w) =>
      if k !in attrs then Failure(MissingAttribute(k))
      else
        match evaluate(attrs[k])
        case None => Failure(LiteralError(k, attrs[k]))
        case Some(v) => Success(Pass(acc.generated[w := Literal(v)], acc.converted + {k}))
  }

  /** The loop run over `keys` in order; the first failing iteration aborts it. */
  function Loop<V>(attrs: map<string, string>, evaluate: string -> Option<V>, keys: seq<string>)
    : (r: Result<Pass<V>, ConvertError>)
    ensures r.Success? <==> Convertible(attrs, evaluate, keys)
    ensures r.Success? ==> LoopFacts(attrs, evaluate, keys, r.value)
    ensures r.Failure? ==> FailsFirst(attrs, evaluate, keys, r.error)
    decreases |keys|
  {
    if keys == [] then Success(Pass(map[], {}))
    else
      var n := |keys| - 1;
      var earlier := Loop(attrs, evaluate, keys[..n]);
      LoopStep(attrs, evaluate, keys, earlier);
      LoopStepFailure(attrs, evaluate, keys, earlier);
      if earlier.Failure? then Failure(earlier.error)
      else Step(attrs, evaluate, earlier.value, keys[n])
  }

  /** Every data key of `keys` converts: its lower-cased form is an attribute whose value evaluates. */
  ghost predicate Convertible<V>(attrs: map<string, string>, evaluate: string -> Option<V>, keys: seq<string>) {
    forall k :: k in keys && NameOf(k).Some? ==> Lower(k) in attrs && evaluate(attrs[Lower(k)]).Some?
  }

  /** `key` is a data key whose conversion raises `e`: its lower-cased form is missing or does not evaluate. */
  ghost predicate Fails<V>(attrs: map<string, string>, evaluate: string -> Option<V>, key: string, e: ConvertError) {
    && NameOf(key).Some?
    && var k := Lower(key);
       if k !in attrs then e == MissingAttribute(k)
       else evaluate(attrs[k]).None? && e == LiteralError(k, attrs[k])
  }

  /** Some key of `keys` raises `e`, and every key before it converts. */
  ghost predicate FailsFirst<V>(attrs: map<string, string>, evaluate: string -> Option<V>, keys: seq<string>, e: ConvertError) {
    exists i :: 0 <= i < |keys| && Fails(attrs, evaluate, keys[i], e) && Convertible(attrs, evaluate, keys[..i])
  }

  /** Key `i` is a data key and no later key generates the same name. */
  ghost predicate LastNamed(keys: seq<string>, i: int) {
    && 0 <= i < |keys| && NameOf(keys[i]).Some?
    && forall j :: i < j < |keys| ==> NameOf(keys[j]) != NameOf(keys[i])
  }

  /**
   * What the loop over `keys` accumulates: the lower-cased data keys, one
   * generated name per data key, and for each name the value of the last
   * key generating it.
   */
  ghost predicate LoopFacts<V>(attrs: map<string, string>, evaluate: string -> Option<V>, keys: seq<string>, p: Pass<V>) {
    && p.converted == (set k | k in keys && NameOf(k).Some? :: Lower(k))
    && p.generated.Keys == (set k | k in keys && NameOf(k).Some? :: NameOf(k).value)
    && forall i :: LastNamed(keys, i) && Lower(keys[i]) in attrs && evaluate(attrs[Lower(keys[i])]).Some? ==>
         && NameOf(keys[i]).value in p.generated
         && p.generated[NameOf(keys[i]).value] == Literal(evaluate(attrs[Lower(keys[i])]).value)
  }

  lemma LoopStep<V>(attrs: map<string, string>, evaluate: string -> Option<V>, keys: seq<string>,
                    earlier: Result<Pass<V>, ConvertError>)
    requires keys != []
    requires earlier.Success? <==> Convertible(attrs, evaluate, keys[..|keys| - 1])
    requires earlier.Success? ==> LoopFacts(attrs, evaluate, keys[..|keys| - 1], earlier.value)
    ensures var r := if earlier.Failure? then Failure(earlier.error) else Step(attrs, evaluate, earlier.value, keys[|keys| - 1]);
            && (r.Success? <==> Convertible(attrs, evaluate, keys))
            && (r.Success? ==> LoopFacts(attrs, evaluate, keys, r.value))
  {
    var n := |keys| - 1;
    var pre := keys[..n];
    assert keys == pre + [keys[n]];
    assert forall k :: k in keys <==> k in pre || k == keys[n];
    if earlier.Success? {
      var r := Step(attrs, evaluate, earlier.value, keys[n]);
      if r.Success? {
        LoopStepWinners(attrs, evaluate, keys, pre, earlier.value, r.value);
      }
    }
  }

  lemma LoopStepFailure<V>(attrs: map<string, string>, evaluate: string -> Option<V>, keys: seq<string>,
                           earlier: Result<Pass<V>, ConvertError>)
    requires keys != []
    requires earlier.Success? <==> Convertible(attrs, evaluate, keys[..|keys| - 1])
    requires earlier.Failure? ==> FailsFirst(attrs, evaluate, keys[..|keys| - 1], earlier.error)
    ensures var r := if earlier.Failure? then Failure(earlier.error) else Step(attrs, evaluate, earlier.value, keys[|keys| - 1]);
            r.Failure? ==> FailsFirst(attrs, evaluate, keys, r.error)
  {
    var n := |keys| - 1;
    var pre := keys[..n];
    if earlier.Failure? {
      var i :| 0 <= i < |pre| && Fails(attrs, evaluate, pre[i], earlier.error) && Convertible(attrs, evaluate, pre[..i]);
      assert pre[..i] == keys[..i];
      assert pre[i] == keys[i];
    } else {
      var r := Step(attrs, evaluate, earlier.value, keys[n]);
      if r.Failure? {
        assert Fails(attrs, evaluate, keys[n], r.error);
      }
    }
  }

  lemma LoopStepWinners<V>(attrs: map<string, string>, evaluate: string -> Option<V>, keys: seq<string>,
                           pre: seq<string>, acc: Pass<V>, p: Pass<V>)
    requires keys != [] && pre == keys[..|keys| - 1]
    requires LoopFacts(attrs, evaluate, pre, acc)
    requires Step(attrs, evaluate, acc, keys[|keys| - 1]) == Success(p)
    ensures forall i :: LastNamed(keys, i) && Lower(keys[i]) in attrs && evaluate(attrs[Lower(keys[i])]).Some? ==>
              && NameOf(keys[i]).value in p.generated
              && p.generated[NameOf(keys[i]).value] == Literal(evaluate(attrs[Lower(keys[i])]).value)
  {
    var n := |pre|;
    forall i | LastNamed(keys, i) && Lower(keys[i]) in attrs && evaluate(attrs[Lower(keys[i])]).Some?
      ensures NameOf(keys[i]).value in p.generated
      ensures p.generated[NameOf(keys[i]).value] == Literal(evaluate(attrs[Lower(keys[i])]).value)
    {
      if i < n {
        assert pre[i] == keys[i];
        assert LastNamed(pre, i) by {
          forall j | i < j < n
            ensures NameOf(pre[j]) != NameOf(pre[i])
          {
            assert pre[j] == keys[j];
          }
        }
        assert NameOf(keys[n]) != NameOf(keys[i]);
      }
    }
  }

  // ---------------------------------------------------------------------------
  // The conversion
  // ---------------------------------------------------------------------------

  /** The lower-cased forms of the data keys: the keys the source deletes. */
  function ConvertedKeys(attrs: map<string, string>): set<string> {
    set k | k in attrs && NameOf(k).Some? :: Lower(k)
  }

  /** The names the data keys generate. */
  function GeneratedKeys(attrs: map<string, string>): set<string> {
    set k | k in attrs && NameOf(k).Some? :: NameOf(k).value
  }

  /** `k` comes last, in sorted order, among the keys that generate the same name. */
  ghost predicate LastInOrder(attrs: map<string, string>, k: string) {
    forall k' :: k' in attrs && NameOf(k') == NameOf(k) ==> !Below(k, k')
  }

  /** Every attribute, unconverted. */
  function RawArgs<V>(attrs: map<string, string>): (r: map<string, Arg<V>>)
    ensures r.Keys == attrs.Keys
    ensures forall k :: k in attrs ==> r[k] == Raw(attrs[k])
  {
    map k | k in attrs :: Raw(attrs[k])
  }

  /**
   * `_convert_data_attributes`. It succeeds exactly when every data key,
   * lower-cased, names an attribute whose value evaluates. Then the result
   * holds the attributes minus the lower-cased data keys, plus one argument
   * per generated name; untouched attributes keep their raw text; a generated
   * name holds the evaluated value of the key that comes last in sorted
   * order among those generating it, even over a raw attribute of that name.
   */
  function Convert<V>(attrs: map<string, string>, evaluate: string -> Option<V>)
    : (r: Result<map<string, Arg<V>>, ConvertError>)
    ensures r.Success? <==> forall k :: k in attrs && NameOf(k).Some? ==> Lower(k) in attrs && evaluate(attrs[Lower(k)]).Some?
    ensures r.Success? ==> r.value.Keys == (attrs.Keys - ConvertedKeys(attrs)) + GeneratedKeys(attrs)
    ensures r.Success? ==> forall k :: k in attrs && k !in ConvertedKeys(attrs) && k !in GeneratedKeys(attrs) ==>
                             k in r.value && r.value[k] == Raw(attrs[k])
    ensures r.Success? ==> forall k :: k in attrs && NameOf(k).Some? && LastInOrder(attrs, k) ==>
                             && Lower(k) in attrs
                             && NameOf(k).value in r.value && r.value[NameOf(k).value] == Literal(evaluate(attrs[Lower(k)]).value)
    ensures r.Failure? ==> exists k :: k in attrs && Fails(attrs, evaluate, k, r.error) && forall k' :: k' in attrs && Below(k', k) ==>
                             NameOf(k').Some? ==> Lower(k') in attrs && evaluate(attrs[Lower(k')]).Some?
  {
    var keys := SortedSet(attrs.Keys);
    var loop := Loop(attrs, evaluate, keys);
    if loop.Failure? then
      FirstFailureInOrder(attrs, evaluate, keys, loop.error);
      Failure(loop.error)
    else
    var pass := loop.value;
    var out := (RawArgs(attrs) + pass.generated) - pass.converted;
    ConvertResult(attrs, evaluate, keys, pass, out);
    Success(out)
  }

  lemma ConvertResult<V>(attrs: map<string, string>, evaluate: string -> Option<V>, keys: seq<string>, pass: Pass<V>,
                         out: map<string, Arg<V>>)
    requires keys == SortedSet(attrs.Keys)
    requires Convertible(attrs, evaluate, keys) && LoopFacts(attrs, evaluate, keys, pass)
    requires out == (RawArgs(attrs) + pass.generated) - pass.converted
    ensures out.Keys == (attrs.Keys - ConvertedKeys(attrs)) + GeneratedKeys(attrs)
    ensures forall k :: k in attrs && k !in ConvertedKeys(attrs) && k !in GeneratedKeys(attrs) ==>
              k in out && out[k] == Raw(attrs[k])
    ensures forall k :: k in attrs && NameOf(k).Some? && LastInOrder(attrs, k) ==>
              && Lower(k) in attrs
              && NameOf(k).value in out && out[NameOf(k).value] == Literal(evaluate(attrs[Lower(k)]).value)
  {
    AccumulatorsMatchAttributes(attrs, evaluate, keys, pass);
    GeneratedAreNotConverted(attrs);
    var raw: map<string, Arg<V>> := RawArgs(attrs);
    OutKeys(attrs, raw, pass);
    OutRaw(attrs, raw, pass);
    OutWinners(attrs, evaluate, keys, raw, pass);
  }

  lemma OutKeys<V>(attrs: map<string, string>, raw: map<string, Arg<V>>, pass: Pass<V>)
    requires raw.Keys == attrs.Keys
    requires pass.converted == ConvertedKeys(attrs) && pass.generated.Keys == GeneratedKeys(attrs)
    requires GeneratedKeys(attrs) !! ConvertedKeys(attrs)
    ensures ((raw + pass.generated) - pass.converted).Keys == (attrs.Keys - ConvertedKeys(attrs)) + GeneratedKeys(attrs)
  {
  }

  lemma OutRaw<V>(attrs: map<string, string>, raw: map<string, Arg<V>>, pass: Pass<V>)
    requires raw == RawArgs(attrs)
    requires pass.converted == ConvertedKeys(attrs) && pass.generated.Keys == GeneratedKeys(attrs)
    ensures var out := (raw + pass.generated) - pass.converted;
            forall k :: k in attrs && k !in ConvertedKeys(attrs) && k !in GeneratedKeys(attrs) ==> k in out && out[k] == Raw(attrs[k])
  {
  }

  lemma OutWinners<V>(attrs: map<string, string>, evaluate: string -> Option<V>, keys: seq<string>,
                      raw: map<string, Arg<V>>, pass: Pass<V>)
    requires keys == SortedSet(attrs.Keys)
    requires Convertible(attrs, evaluate, keys) && LoopFacts(attrs, evaluate, keys, pass)
    requires GeneratedKeys(attrs) !! ConvertedKeys(attrs) && pass.converted == ConvertedKeys(attrs)
    ensures var out := (raw + pass.generated) - pass.converted;
            forall k :: k in attrs && NameOf(k).Some? && LastInOrder(attrs, k) ==>
              && Lower(k) in attrs
              && NameOf(k).value in out && out[NameOf(k).value] == Literal(evaluate(attrs[Lower(k)]).value)
  {
    forall k | k in attrs && NameOf(k).Some? && LastInOrder(attrs, k)
      ensures Lower(k) in attrs
      ensures NameOf(k).value in (raw + pass.generated) - pass.converted
    ensures ((raw + pass.generated) - pass.converted)[NameOf(k).value] == Literal(evaluate(attrs[Lower(k)]).value)
    {
      OneWinner(attrs, evaluate, keys, raw, pass, k);
    }
  }

  lemma OneWinner<V>(attrs: map<string, string>, evaluate: string -> Option<V>, keys: seq<string>,
                     raw: map<string, Arg<V>>, pass: Pass<V>, k: string)
    requires keys == SortedSet(attrs.Keys)
    requires Convertible(attrs, evaluate, keys) && LoopFacts(attrs, evaluate, keys, pass)
    requires GeneratedKeys(attrs) !! ConvertedKeys(attrs) && pass.converted == ConvertedKeys(attrs)
    requires k in attrs && NameOf(k).Some? && LastInOrder(attrs, k)
    ensures Lower(k) in attrs
    ensures NameOf(k).value in (raw + pass.generated) - pass.converted
    ensures ((raw + pass.generated) - pass.converted)[NameOf(k).value] == Literal(evaluate(attrs[Lower(k)]).value)
  {
    var i := LastInOrderIsLastNamed(attrs, evaluate, keys, k);
    var w := NameOf(k).value;
    assert w in GeneratedKeys(attrs);
    WinnerSurvives(raw, pass, w, Literal(evaluate(attrs[Lower(k)]).value));
  }

  lemma WinnerSurvives<V>(raw: map<string, Arg<V>>, pass: Pass<V>, w: string, a: Arg<V>)
    requires w in pass.generated && pass.generated[w] == a && w !in pass.converted
    ensures w in (raw + pass.generated) - pass.converted
    ensures ((raw + pass.generated) - pass.converted)[w] == a
  {
  }

  lemma FirstFailureInOrder<V>(attrs: map<string, string>, evaluate: string -> Option<V>, keys: seq<string>, e: ConvertError)
    requires keys == SortedSet(attrs.Keys)
    requires FailsFirst(attrs, evaluate, keys, e)
    ensures exists k :: k in attrs && Fails(attrs, evaluate, k, e) && forall k' :: k' in attrs && Below(k', k) ==>
              NameOf(k').Some? ==> Lower(k') in attrs && evaluate(attrs[Lower(k')]).Some?
  {
    var i :| 0 <= i < |keys| && Fails(attrs, evaluate, keys[i], e) && Convertible(attrs, evaluate, keys[..i]);
    var k := keys[i];
    forall k' | k' in attrs && Below(k', k)
      ensures NameOf(k').Some? ==> Lower(k') in attrs && evaluate(attrs[Lower(k')]).Some?
    {
      var j := EarlierKeyComesFirst(attrs, keys, i, k');
      assert keys[..i][j] == k';
    }
    assert k in attrs;
  }

  /** A key below the `i`-th sorted key sits at some index before `i`. */
  lemma EarlierKeyComesFirst(attrs: map<string, string>, keys: seq<string>, i: int, k': string) returns (j: int)
    requires keys == SortedSet(attrs.Keys) && 0 <= i < |keys|
    requires k' in attrs && Below(k', keys[i])
    ensures 0 <= j < i && keys[j] == k'
  {
    j :| 0 <= j < |keys| && keys[j] == k';
    if j == i {
      BelowIrreflexive(k');
    } else if i < j {
      assert Below(keys[i], keys[j]);
      BelowTransitive(k', keys[i], k');
      BelowIrreflexive(k');
    }
  }

  lemma AccumulatorsMatchAttributes<V>(attrs: map<string, string>, evaluate: string -> Option<V>, keys: seq<string>,
                                       pass: Pass<V>)
    requires keys == SortedSet(attrs.Keys)
    requires LoopFacts(attrs, evaluate, keys, pass)
    ensures pass.converted == ConvertedKeys(attrs)
    ensures pass.generated.Keys == GeneratedKeys(attrs)
  {
  }

  lemma GeneratedAreNotConverted(attrs: map<string, string>)
    ensures GeneratedKeys(attrs) !! ConvertedKeys(attrs)
  {
    forall w | w in GeneratedKeys(attrs)
      ensures w !in ConvertedKeys(attrs)
    {
      var key :| key in attrs && NameOf(key).Some? && NameOf(key).value == w;
      if w in ConvertedKeys(attrs) {
        var k :| k in attrs && NameOf(k).Some? && Lower(k) == w;
        NameIsNotDataKey(key, w);
      }
    }
  }

  lemma LastInOrderIsLastNamed<V>(attrs: map<string, string>, evaluate: string -> Option<V>, keys: seq<string>, k: string)
      returns (i: int)
    requires keys == SortedSet(attrs.Keys)
    requires k in attrs && NameOf(k).Some? && LastInOrder(attrs, k)
    ensures 0 <= i < |keys| && keys[i] == k && LastNamed(keys, i)
  {
    i :| 0 <= i < |keys| && keys[i] == k;
    forall j | i < j < |keys|
      ensures NameOf(keys[j]) != NameOf(keys[i])
    {
      assert Below(keys[i], keys[j]);
    }
    assert LastNamed(keys, i);
  }

  /** A data key spelt with capitals is looked up lower-cased and, when only the capitalised form exists, fails. */
  lemma CapitalisedDataKeyIsMissing<V>(evaluate: string -> Option<V>)
    ensures Convert(map["DATA-x" := "1"], evaluate) == Failure(MissingAttribute("data-x"))
  {
    CapitalisedKeyName();
    LoneKeyMissing(map["DATA-x" := "1"], evaluate, "DATA-x");
  }

  lemma CapitalisedKeyName()
    ensures Lower("DATA-x") == "data-x" && NameOf("DATA-x") == Some("x")
  {
    DataNameOfWord("x", "");
    assert DataPrefix + "x" + "" == "data-x";
  }

  /** The only attribute is a data key whose lower-cased form is absent: the conversion reports that form missing. */
  lemma LoneKeyMissing<V>(attrs: map<string, string>, evaluate: string -> Option<V>, key: string)
    requires attrs.Keys == {key} && NameOf(key).Some? && Lower(key) != key
    ensures Convert(attrs, evaluate) == Failure(MissingAttribute(Lower(key)))
  {
    var r := Convert(attrs, evaluate);
    assert !(Lower(key) in attrs);
    var k :| k in attrs && Fails(attrs, evaluate, k, r.error);
    assert k == key;
  }

  /** `data-foo-bar` generates the argument `foo`: the word run stops at the second hyphen. */
  lemma HyphenEndsTheName()
    ensures NameOf("data-foo-bar") == Some("foo")
  {
    var key := "data-foo-bar";
    LowerFixesLowerCase(key);
    DataNameOfWord("foo", "-bar");
    assert DataPrefix + "foo" + "-bar" == key;
  }
}
