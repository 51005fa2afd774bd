/** The construction-time configuration of a filesystem (`fileSystemOptions`)
    and the functional options that build it. */
module Config {

  /** `fileSystemOptions`; the flag switches off automatic creation of missing
      ancestor directories ("restrictive" mode when set). */
  datatype Options = Options(pFlagDisabled: bool)

  /** The options a filesystem starts from before any option is applied. */
  const Default: Options := Options(false)

  /** `fileSystemOption`: a function from options to options. */
  type Option = Options -> Options

  /** `DisablePFlag()`: the option that sets `pFlagDisabled` and keeps the rest. */
  function DisablePFlag(): (f: Option)
    ensures forall o :: f(o).pFlagDisabled && f(o) == o.(pFlagDisabled := true)
  {
    (o: Options) => o.(pFlagDisabled := true)
  }

  /** The options obtained by applying `opts` to `start`, first to last. */
  function Apply(start: Options, opts: seq<Option>): Options
    decreases |opts|
  {
    if |opts| == 0 then start else Apply(opts[0](start), opts[1..])
  }

  /** Applying one more option applies it to the result of the others. */
  lemma {:induction false} ApplySnoc(start: Options, opts: seq<Option>, f: Option)
    ensures Apply(start, opts + [f]) == f(Apply(start, opts))
    decreases |opts|
  {
    if |opts| > 0 {
      assert (opts + [f])[1..] == opts[1..] + [f];
      ApplySnoc(opts[0](start), opts[1..], f);
    }
  }

  /** Options fold left to right: a list split in two applies its halves in turn. */
  lemma {:induction false} ApplyConcat(start: Options, a: seq<Option>, b: seq<Option>)
    ensures Apply(start, a + b) == Apply(Apply(start, a), b)
    decreases |a|
  {
    if |a| > 0 {
      assert (a + b)[1..] == a[1..] + b;
      ApplyConcat(a[0](start), a[1..], b);
    } else {
      assert a + b == b;
    }
  }

  /** With no options the flag is off; with a list made of `DisablePFlag()`
      only, it is on exactly when the list is not empty. */
  lemma {:induction false} ApplyDisableOnly(opts: seq<Option>)
    requires forall i :: 0 <= i < |opts| ==> opts[i] == DisablePFlag()
    ensures Apply(Default, opts) == Options(|opts| > 0)
  {
    if |opts| > 0 {
      var n := |opts| - 1;
      assert opts == opts[..n] + [opts[n]];
      ApplySnoc(Default, opts[..n], opts[n]);
      ApplyDisableOnly(opts[..n]);
    }
  }
}
