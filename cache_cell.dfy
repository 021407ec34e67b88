/** `CacheCell` (kyute/src/cache_cell.rs): a memo cell that keeps the last
    arguments it was called with and the value computed for them. */
module CacheCells {
  import opened Wrappers

  class CacheCell<Args, T> {
    /** The last arguments and the value computed for them. */
    var last: Option<(Args, T)>

    /** `CacheCell::new` (and `Default`): nothing stored yet. */
    constructor ()
      ensures last == None
    {
      last := None;
    }

    /** `CacheCell::cache`: when the stored arguments are the same as `args`
        (by `same`, the `Data::same` of the arguments), the stored value is
        returned and `init` is not consulted; otherwise `init(args)` is
        computed, stored with `args`, and returned. */
    method Cache(args: Args, same: (Args, Args) -> bool, init: Args -> T) returns (value: T)
      modifies this
      ensures old(last).Some? && same(old(last).value.0, args) ==> value == old(last).value.1 && last == old(last)
      ensures !(old(last).Some? && same(old(last).value.0, args)) ==> value == init(args) && last == Some((args, value))
      ensures last.Some? && last.value.1 == value
    {
      if last.Some? {
        var (lastArgs, lastValue) := last.value;
        if same(lastArgs, args) {
          return lastValue;
        }
      }
      value := init(args);
      last := Some((args, value));
    }
  }

  /** Two calls in a row: when the first one computes its value, a second
      one with arguments that are the same as the first's reuses that value;
      when the first one reuses the stored value, so does a second one whose
      arguments are the same as the stored ones. */
  method RepeatedCallHits<Args, T>(cell: CacheCell<Args, T>, args: Args, again: Args, same: (Args, Args) -> bool, init: Args -> T)
    returns (first: T, second: T)
    modifies cell
    ensures !(old(cell.last).Some? && same(old(cell.last).value.0, args)) && same(args, again) ==>
              second == first && cell.last == Some((args, first))
    ensures old(cell.last).Some? && same(old(cell.last).value.0, args) && same(old(cell.last).value.0, again) ==>
              second == first && cell.last == old(cell.last)
  {
    first := cell.Cache(args, same, init);
    second := cell.Cache(again, same, init);
  }
}
