/**
 The weight budget of the route form: three weights (reliability, delay, resource), each
 shown as a slider and a number box. Editing one clamps it so that the three sum to at
 most 1 and writes the clamped value into both of its fields. A number box holds text;
 `None` is text that does not parse as a number.
 */
module WeightBudget {
  import opened Graphs

  /** The slider and number-box ids of the three weights, in panel order. */
  const SliderIds: seq<string> := ["w_rel", "w_delay", "w_res"]
  const NumberIds: seq<string> := ["w_rel_number", "w_delay_number", "w_res_number"]

  /** `findIndex`: the first weight one of whose two ids is `id`, or -1. */
  function ChangedIndex(id: string): (k: int)
    ensures -1 <= k < 3
    ensures k >= 0 ==> (SliderIds[k] == id || NumberIds[k] == id)
                       && forall j :: 0 <= j < k ==> SliderIds[j] != id && NumberIds[j] != id
    ensures k == -1 ==> forall j :: 0 <= j < 3 ==> SliderIds[j] != id && NumberIds[j] != id
  {
    if SliderIds[0] == id || NumberIds[0] == id then 0
    else if SliderIds[1] == id || NumberIds[1] == id then 1
    else if SliderIds[2] == id || NumberIds[2] == id then 2
    else -1
  }

  /** `parseFloat(x) || 0`: text that does not parse counts as 0. */
  function ParseOrZero(text: Option<real>): real {
    GetOr(text, 0.0)
  }

  /** The sum, read from the number boxes, of the weights other than the `k`-th. */
  function OtherSum(numbers: seq<Option<real>>, k: int): real
    requires |numbers| == 3
  {
    (if k != 0 then ParseOrZero(numbers[0]) else 0.0)
    + (if k != 1 then ParseOrZero(numbers[1]) else 0.0)
    + (if k != 2 then ParseOrZero(numbers[2]) else 0.0)
  }

  /** The clamp: the request cut to the budget `max(0, 1 - otherSum)` the other weights leave,
      and raised to 0 when negative. */
  function ClampWeight(otherSum: real, requested: real): (r: real)
    ensures 0.0 <= r <= Max(0.0, 1.0 - otherSum)
    ensures 0.0 <= requested <= 1.0 - otherSum ==> r == requested
    ensures requested <= 0.0 ==> r == 0.0
    ensures requested >= Max(0.0, 1.0 - otherSum) ==> r == Max(0.0, 1.0 - otherSum)
    ensures otherSum >= 1.0 ==> r == 0.0
  {
    Max(0.0, Min(requested, Max(0.0, 1.0 - otherSum)))
  }

  /** When the other weights fit the budget, so does the clamped one with them. */
  lemma ClampKeepsBudget(otherSum: real, requested: real)
    requires otherSum <= 1.0
    ensures otherSum + ClampWeight(otherSum, requested) <= 1.0
  {
  }

  /** Three weights, none negative, summing to at most 1. */
  predicate WithinBudget(numbers: seq<Option<real>>) {
    && |numbers| == 3
    && (forall i :: 0 <= i < 3 ==> numbers[i].Some? && numbers[i].value >= 0.0)
    && ParseOrZero(numbers[0]) + ParseOrZero(numbers[1]) + ParseOrZero(numbers[2]) <= 1.0
  }

  /** Writing the clamp of any request into one weight keeps three weights within the budget. */
  lemma ClampKeepsWithinBudget(numbers: seq<Option<real>>, k: int, requested: real)
    requires WithinBudget(numbers) && 0 <= k < 3
    ensures WithinBudget(numbers[k := Some(ClampWeight(OtherSum(numbers, k), requested))])
  {
    var c := ClampWeight(OtherSum(numbers, k), requested);
    var t := numbers[k := Some(c)];
    assert OtherSum(numbers, k) <= 1.0;
    assert ParseOrZero(t[0]) + ParseOrZero(t[1]) + ParseOrZero(t[2]) == OtherSum(numbers, k) + c;
  }

  /** The panel: the value of each weight's slider and the text of its number box. */
  class WeightPanel {
    var sliders: seq<real>
    var numbers: seq<Option<real>>

    ghost predicate Valid()
      reads this
    {
      |sliders| == 3 && |numbers| == 3
    }

    /** Each slider shows what its number box holds, no weight is negative, and the three
        sum to at most 1. */
    ghost predicate Balanced()
      reads this
    {
      && Valid()
      && (forall i :: 0 <= i < 3 ==> numbers[i] == Some(sliders[i]))
      && WithinBudget(numbers)
    }

    constructor (sliders: seq<real>, numbers: seq<Option<real>>)
      requires |sliders| == 3 && |numbers| == 3
      ensures this.sliders == sliders && this.numbers == numbers && Valid()
    {
      this.sliders := sliders;
      this.numbers := numbers;
    }

    /** `handleWeightInput`: clamp `value` against the number boxes of the other two weights
        and write the result into both fields of the weight `id` names, and nothing else.
        An id of no weight fails before anything is written. A balanced panel stays balanced. */
    method HandleWeightInput(id: string, value: Option<real>) returns (applied: bool)
      modifies this
      requires Valid()
      ensures Valid() && (applied <==> ChangedIndex(id) >= 0)
      ensures !applied ==> sliders == old(sliders) && numbers == old(numbers)
      ensures applied ==>
                var k := ChangedIndex(id);
                var shown := ClampWeight(OtherSum(old(numbers), k), ParseOrZero(value));
                sliders == old(sliders)[k := shown] && numbers == old(numbers)[k := Some(shown)]
      ensures old(Balanced()) ==> Balanced()
    {
      var k := ChangedIndex(id);
      var otherSum := OtherSum(numbers, k);
      if k < 0 {
        return false;
      }
      var finalVal := ClampWeight(otherSum, ParseOrZero(value));
      if Balanced() {
        ClampKeepsWithinBudget(numbers, k, ParseOrZero(value));
      }
      sliders := sliders[k := finalVal];
      numbers := numbers[k := Some(finalVal)];
      return true;
    }
  }
}
