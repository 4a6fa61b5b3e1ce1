/**
 * The retry post-processor's list of handler names. Handlers are known to it
 * under their alias, the bean name with the handler alias suffix appended;
 * the names it is given are normalised to that form, and only message
 * handlers whose bean name is in the resulting set are advised.
 *
 * The value of the alias suffix is not part of this model: it is the
 * `suffix` parameter throughout.
 */
module Retry {
  import opened Wrappers
  import opened JavaLang
  import opened BeanPostProcessing

  const HandlersNull := "Handlers may not be null"

  /** A handler name in alias form: the suffix is appended unless it is already there. */
  function Normalize(name: string, suffix: string): (n: string)
    ensures EndsWith(n, suffix)
    ensures EndsWith(name, suffix) ==> n == name
    ensures !EndsWith(name, suffix) ==> |n| == |name| + |suffix| && n[..|name|] == name
  {
    if EndsWith(name, suffix) then name
    else
      var n := name + suffix;
      assert n[|n| - |suffix|..] == suffix;
      n
  }

  /** Normalising twice is normalising once. */
  lemma NormalizeIdempotent(name: string, suffix: string)
    ensures Normalize(Normalize(name, suffix), suffix) == Normalize(name, suffix)
  {
  }

  /** The set of normalised names, built in list order. */
  function NormalizedSet(names: seq<string>, suffix: string): set<string>
  {
    if names == [] then {}
    else NormalizedSet(names[..|names| - 1], suffix) + {Normalize(names[|names| - 1], suffix)}
  }

  /** The set after one more name of the list. */
  lemma NormalizedSetStep(names: seq<string>, suffix: string, i: int)
    requires 0 <= i < |names|
    ensures NormalizedSet(names[..i + 1], suffix) == NormalizedSet(names[..i], suffix) + {Normalize(names[i], suffix)}
  {
    assert names[..i + 1][..i] == names[..i];
  }

  /** Every given name is in the set, normalised. */
  lemma {:induction false} NormalizedSetIncludes(names: seq<string>, suffix: string, i: int)
    requires 0 <= i < |names|
    ensures Normalize(names[i], suffix) in NormalizedSet(names, suffix)
  {
    var init := names[..|names| - 1];
    if i < |init| {
      NormalizedSetIncludes(init, suffix, i);
      assert init[i] == names[i];
    }
  }

  /** Every name in the set is one of the given names, normalised. */
  lemma {:induction false} NormalizedSetSource(names: seq<string>, suffix: string, x: string) returns (i: nat)
    requires x in NormalizedSet(names, suffix)
    ensures i < |names| && Normalize(names[i], suffix) == x
  {
    var init := names[..|names| - 1];
    var last := Normalize(names[|names| - 1], suffix);
    if x == last {
      i := |names| - 1;
    } else {
      assert NormalizedSet(names, suffix) == NormalizedSet(init, suffix) + {last};
      assert x in NormalizedSet(init, suffix);
      i := NormalizedSetSource(init, suffix, x);
      assert init[i] == names[i];
    }
  }

  /** Every stored name ends with the suffix. */
  lemma NormalizedSetSuffixed(names: seq<string>, suffix: string, x: string)
    requires x in NormalizedSet(names, suffix)
    ensures EndsWith(x, suffix)
  {
    var i := NormalizedSetSource(names, suffix, x);
  }

  /** Exactly the normalised forms of the given names are in the set. */
  lemma NormalizedSetMembers(names: seq<string>, suffix: string, x: string)
    ensures x in NormalizedSet(names, suffix) <==> exists i :: 0 <= i < |names| && Normalize(names[i], suffix) == x
  {
    if x in NormalizedSet(names, suffix) {
      var i := NormalizedSetSource(names, suffix, x);
    }
    if exists i :: 0 <= i < |names| && Normalize(names[i], suffix) == x {
      var i :| 0 <= i < |names| && Normalize(names[i], suffix) == x;
      NormalizedSetIncludes(names, suffix, i);
    }
  }

  /**
   * A name is in the set just when it ends with the suffix and was given
   * either as it is, or without the suffix.
   */
  lemma NormalizedSetHolds(names: seq<string>, suffix: string, x: string)
    ensures x in NormalizedSet(names, suffix) <==>
      EndsWith(x, suffix) &&
      ((exists i :: 0 <= i < |names| && names[i] == x) ||
       (exists i :: 0 <= i < |names| && !EndsWith(names[i], suffix) && names[i] + suffix == x))
  {
    NormalizedSetMembers(names, suffix, x);
    if x in NormalizedSet(names, suffix) {
      var i :| 0 <= i < |names| && Normalize(names[i], suffix) == x;
      if !EndsWith(names[i], suffix) {
        assert names[i] + suffix == x;
      }
    }
    if EndsWith(x, suffix) && exists i :: 0 <= i < |names| && names[i] == x {
      var i :| 0 <= i < |names| && names[i] == x;
      assert Normalize(names[i], suffix) == x;
    }
    if exists i :: 0 <= i < |names| && !EndsWith(names[i], suffix) && names[i] + suffix == x {
      var i :| 0 <= i < |names| && !EndsWith(names[i], suffix) && names[i] + suffix == x;
      assert Normalize(names[i], suffix) == x;
    }
  }

  /** The set holds at most as many names as were given. */
  lemma {:induction false} NormalizedSetSize(names: seq<string>, suffix: string)
    ensures |NormalizedSet(names, suffix)| <= |names|
  {
    if names != [] {
      NormalizedSetSize(names[..|names| - 1], suffix);
    }
  }

  /** Every name of the list, normalised. */
  function NormalizeAll(names: seq<string>, suffix: string): (r: seq<string>)
    ensures |r| == |names|
    ensures forall i :: 0 <= i < |names| ==> r[i] == Normalize(names[i], suffix)
  {
    if names == [] then [] else NormalizeAll(names[..|names| - 1], suffix) + [Normalize(names[|names| - 1], suffix)]
  }

  /** Normalising an already normalised list gives the same set. */
  lemma NormalizedSetIdempotent(names: seq<string>, suffix: string)
    ensures NormalizedSet(NormalizeAll(names, suffix), suffix) == NormalizedSet(names, suffix)
  {
    var once := NormalizeAll(names, suffix);
    forall x
      ensures x in NormalizedSet(once, suffix) <==> x in NormalizedSet(names, suffix)
    {
      NormalizedSetMembers(once, suffix, x);
      NormalizedSetMembers(names, suffix, x);
      if x in NormalizedSet(once, suffix) {
        var i :| 0 <= i < |once| && Normalize(once[i], suffix) == x;
        NormalizeIdempotent(names[i], suffix);
      }
      if x in NormalizedSet(names, suffix) {
        var i :| 0 <= i < |names| && Normalize(names[i], suffix) == x;
        NormalizeIdempotent(names[i], suffix);
        assert Normalize(once[i], suffix) == x;
      }
    }
  }

  /**
   * postProcessAfterInitialization: only message handlers whose bean name is
   * in the set are advised; with no set given, a handler meets a null set.
   */
  function PostProcessAfterInitialization(isHandler: bool, handlerNames: Option<set<string>>, beanName: string,
                                          canApply: bool, advised: bool): (r: Result<Advice, Throwable>)
    ensures !isHandler ==> r == Success(AsIs)
    ensures isHandler && handlerNames.None? ==> r == Failure(Throwable(NullPointerException, None))
    ensures isHandler && handlerNames.Some? && beanName !in handlerNames.value ==> r == Success(AsIs)
    ensures isHandler && handlerNames.Some? && beanName in handlerNames.value ==> r == Success(Advise(true, canApply, advised))
  {
    if !isHandler then Success(AsIs)
    else if handlerNames.None? then Failure(Throwable(NullPointerException, None))
    else Success(Advise(beanName in handlerNames.value, canApply, advised))
  }

  class RetryBeanPostProcessor {
    const suffix: string
    var handlerNames: Option<set<string>>

    constructor (suffix: string)
      ensures this.suffix == suffix && handlerNames == None
    {
      this.suffix := suffix;
      handlerNames := None;
    }

    /** `None` stands for a null array. */
    method SetHandlers(names: Option<seq<string>>) returns (r: Outcome<Throwable>)
      modifies this
      ensures names.None? ==> r == Fail(Throwable(IllegalArgumentException, Some(HandlersNull))) && handlerNames == old(handlerNames)
      ensures names.Some? ==> r == Pass && handlerNames == Some(NormalizedSet(names.value, suffix))
    {
      if names.None? {
        return Fail(Throwable(IllegalArgumentException, Some(HandlersNull)));
      }
      var given := names.value;
      var theHandlerNames: set<string> := {};
      for i := 0 to |given|
        invariant theHandlerNames == NormalizedSet(given[..i], suffix)
      {
        NormalizedSetStep(given, suffix, i);
        var handlerName := given[i];
        if !EndsWith(handlerName, suffix) {
          theHandlerNames := theHandlerNames + {handlerName + suffix};
        } else {
          theHandlerNames := theHandlerNames + {handlerName};
        }
      }
      assert given[..|given|] == given;
      handlerNames := Some(theHandlerNames);
      r := Pass;
    }
  }
}
