/** Clamping of the two tuning parameters of the inference task: the number of
    models is forced into [1, 5] and the number of recycles into [1, 50]; every
    change is reported by a warning and nothing is ever rejected. */
module Parameters {
  import opened Outcomes

  const MinModels: int := 1
  const MaxModels: int := 5
  const MinRecycles: int := 1
  const MaxRecycles: int := 50

  /** `x` forced into `[lo, hi]`. */
  function Clamp(x: int, lo: int, hi: int): (r: int)
    requires lo <= hi
    ensures lo <= r <= hi
    ensures lo <= x <= hi ==> r == x
    ensures x < lo ==> r == lo
    ensures x > hi ==> r == hi
  {
    if x < lo then lo else if x > hi then hi else x
  }

  /** The warnings clamping raises for the two given values, models first. */
  function ClampWarnings(nrofModels: int, nrofRecycles: int): seq<Warning>
  {
    (if nrofModels < MinModels then [ModelsBelowOne]
     else if nrofModels > MaxModels then [ModelsAboveFive] else [])
    + (if nrofRecycles < MinRecycles then [RecyclesBelowOne]
       else if nrofRecycles > MaxRecycles then [RecyclesAboveFifty] else [])
  }

  /** A warning is raised for a parameter exactly when its value is out of range,
      names the side it left the range on, and comes at most once per parameter;
      the models' warning comes before the recycles'. */
  lemma ClampWarningsExact(nrofModels: int, nrofRecycles: int)
    ensures ModelsBelowOne in ClampWarnings(nrofModels, nrofRecycles) <==> nrofModels < MinModels
    ensures ModelsAboveFive in ClampWarnings(nrofModels, nrofRecycles) <==> nrofModels > MaxModels
    ensures RecyclesBelowOne in ClampWarnings(nrofModels, nrofRecycles) <==> nrofRecycles < MinRecycles
    ensures RecyclesAboveFifty in ClampWarnings(nrofModels, nrofRecycles) <==> nrofRecycles > MaxRecycles
    ensures |ClampWarnings(nrofModels, nrofRecycles)|
      == (if MinModels <= nrofModels <= MaxModels then 0 else 1)
       + (if MinRecycles <= nrofRecycles <= MaxRecycles then 0 else 1)
    ensures |ClampWarnings(nrofModels, nrofRecycles)| == 2 ==>
      (ClampWarnings(nrofModels, nrofRecycles)[0] == ModelsBelowOne
       || ClampWarnings(nrofModels, nrofRecycles)[0] == ModelsAboveFive)
      && (ClampWarnings(nrofModels, nrofRecycles)[1] == RecyclesBelowOne
          || ClampWarnings(nrofModels, nrofRecycles)[1] == RecyclesAboveFifty)
  {
  }

  /** The task's opening checks: each parameter below its range is raised to the
      lower bound and each above it lowered to the upper bound, with a warning
      for every change; values in range pass unchanged and silently. */
  method ClampParameters(nrofModels: int, nrofRecycles: int)
    returns (models: int, recycles: int, warnings: seq<Warning>)
    ensures MinModels <= models <= MaxModels && MinRecycles <= recycles <= MaxRecycles
    ensures MinModels <= nrofModels <= MaxModels ==> models == nrofModels
    ensures MinRecycles <= nrofRecycles <= MaxRecycles ==> recycles == nrofRecycles
    ensures models == Clamp(nrofModels, MinModels, MaxModels)
    ensures recycles == Clamp(nrofRecycles, MinRecycles, MaxRecycles)
    ensures warnings == ClampWarnings(nrofModels, nrofRecycles)
    ensures warnings == [] <==> models == nrofModels && recycles == nrofRecycles
  {
    models, recycles, warnings := nrofModels, nrofRecycles, [];
    if models < MinModels {
      warnings := warnings + [ModelsBelowOne];
      models := MinModels;
    }
    if models > MaxModels {
      warnings := warnings + [ModelsAboveFive];
      models := MaxModels;
    }
    if recycles < MinRecycles {
      warnings := warnings + [RecyclesBelowOne];
      recycles := MinRecycles;
    }
    if recycles > MaxRecycles {
      warnings := warnings + [RecyclesAboveFifty];
      recycles := MaxRecycles;
    }
  }
}
