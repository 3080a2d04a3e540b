/** The guard that lets a loop of byte stores skip its checks, and why no later store leaves the
    window that was checked once. All arithmetic is that of 64-bit registers. */
module WriteSpan {
  import opened Options
  import opened Words

  /** The window of guest memory that the host can write directly: guest addresses from `base`
      are host addresses from `bytes`. Neither side wraps around. */
  datatype Window = Window(base: u64, size: u64, bytes: u64)

  predicate WindowValid(w: Window) {
    w.base + w.size <= U64_LIMIT && w.bytes + w.size <= U64_LIMIT
  }

  /** The address of one pass is `induction + offset`; the next pass adds `step` to the induction
      variable and runs while that is below `limit`. Step and offset do not change in the loop. */
  datatype Span = Span(step: u64, offset: u64, limit: u64)

  function GuestAddress(s: Span, induction: u64): u64 {
    Add64(induction, s.offset)
  }

  /** What the guard asks, in plain arithmetic: the whole remaining span of addresses lies in the
      window, and neither the addresses nor the induction variable can wrap. */
  predicate SpanInside(w: Window, s: Span, induction: u64) {
    s.step != 0 && induction < s.limit && s.limit + s.step <= U64_LIMIT &&
    s.offset + s.limit <= U64_LIMIT &&
    w.base <= induction + s.offset && s.offset + s.limit - 1 < w.base + w.size
  }

  /** The emitted guard. It also computes where the next pass will store. */
  method Guard(w: Window, s: Span, induction: u64) returns (accepted: bool, x3: u64)
    requires WindowValid(w) && s.limit != 0
    ensures accepted <==> w.bytes != 0 && SpanInside(w, s, induction)
    ensures accepted ==> x3 == Add64(Add64(w.bytes, Sub64(GuestAddress(s, induction), w.base)), s.step)
  {
    accepted, x3 := false, 0;
    if w.bytes == 0 {
      return;
    }
    if s.step == 0 {
      return;
    }
    if induction >= s.limit {
      return;
    }
    if s.step > U64_LIMIT - 1 - (s.limit - 1) {
      return;
    }
    var x16 := Add64(s.offset, s.limit - 1);
    if x16 < s.offset {
      return;
    }
    var x17 := Sub64(x16, w.base);
    if x17 >= w.size {
      return;
    }
    var address := GuestAddress(s, induction);
    AddressIsExact(s, induction);
    x17 := Sub64(address, w.base);
    if x17 >= w.size {
      return;
    }
    x3 := Add64(w.bytes, x17);
    x3 := Add64(x3, s.step);
    accepted := true;
  }

  lemma AddressIsExact(s: Span, induction: u64)
    requires induction < s.limit && s.offset + s.limit <= U64_LIMIT
    ensures GuestAddress(s, induction) == induction + s.offset
  {
  }

  /** The next induction value does not wrap, and while it is below the limit the span is still
      inside. */
  lemma SpanContinues(w: Window, s: Span, induction: u64)
    requires WindowValid(w) && SpanInside(w, s, induction)
    ensures Add64(induction, s.step) == induction + s.step
    ensures Add64(induction, s.step) < s.limit ==> SpanInside(w, s, Add64(induction, s.step))
  {
  }

  /** Inside the span the store is inside the window, at the host address the check would give. */
  lemma StoreInside(w: Window, s: Span, induction: u64)
    requires WindowValid(w) && SpanInside(w, s, induction)
    ensures GuestAddress(s, induction) == induction + s.offset
    ensures Sub64(GuestAddress(s, induction), w.base) == induction + s.offset - w.base < w.size
    ensures Add64(w.bytes, Sub64(GuestAddress(s, induction), w.base)) == w.bytes + (induction + s.offset - w.base)
  {
    AddressIsExact(s, induction);
  }

  /** The stores of the passes from `induction` on, each behind its own check; none if a check
      fails. One value is stored per pass. */
  function CheckedStores(contents: seq<byte>, w: Window, s: Span, induction: u64, values: seq<byte>): Option<seq<byte>>
    requires |contents| == w.size
    decreases |values|
  {
    if values == [] || induction >= s.limit then Some(contents)
    else
      var index := Sub64(GuestAddress(s, induction), w.base);
      if index >= w.size then None
      else CheckedStores(contents[index := values[0]], w, s, Add64(induction, s.step), values[1..])
  }

  /** Every pass stores through `x3` and moves it on. For any number of passes the stores stay in
      the window and have the effect of the checked ones. */
  method FastStores(host: array<byte>, w: Window, s: Span, guarded: u64, start: u64, values: seq<byte>)
    requires WindowValid(w) && host.Length == w.size && SpanInside(w, s, guarded)
    requires start == Add64(Add64(w.bytes, Sub64(GuestAddress(s, guarded), w.base)), s.step)
    modifies host
    ensures CheckedStores(old(host[..]), w, s, Add64(guarded, s.step), values) == Some(host[..])
  {
    hide CheckedStores, SpanInside, GuestAddress, Sub64;
    SpanContinues(w, s, guarded);
    StoreInside(w, s, guarded);
    var induction: u64 := Add64(guarded, s.step);
    var x3 := start;
    var pass := 0;
    ghost var original := host[..];
    assert values[0..] == values;
    while pass < |values| && induction < s.limit
      invariant pass <= |values|
      invariant induction < s.limit ==> SpanInside(w, s, induction) && x3 == w.bytes + (induction + s.offset - w.base)
      invariant CheckedStores(original, w, s, Add64(guarded, s.step), values) ==
        CheckedStores(host[..], w, s, induction, values[pass..])
    {
      StoreInside(w, s, induction);
      ghost var before := host[..];
      host[x3 - w.bytes] := values[pass];
      assert host[..] == before[x3 - w.bytes := values[pass]];
      OneStore(before, w, s, induction, values[pass..]);
      assert values[pass..][1..] == values[pass + 1..];
      SpanContinues(w, s, induction);
      x3 := Add64(x3, s.step);
      induction := Add64(induction, s.step);
      pass := pass + 1;
    }
    AllStored(host[..], w, s, induction, values[pass..]);
  }

  lemma OneStore(contents: seq<byte>, w: Window, s: Span, induction: u64, values: seq<byte>)
    requires WindowValid(w) && |contents| == w.size && values != [] && SpanInside(w, s, induction)
    ensures var index := induction + s.offset - w.base;
      0 <= index < |contents| &&
      CheckedStores(contents, w, s, induction, values) ==
      CheckedStores(contents[index := values[0]], w, s, Add64(induction, s.step), values[1..])
  {
    StoreInside(w, s, induction);
  }

  lemma AllStored(contents: seq<byte>, w: Window, s: Span, induction: u64, values: seq<byte>)
    requires |contents| == w.size && (values == [] || induction >= s.limit)
    ensures CheckedStores(contents, w, s, induction, values) == Some(contents)
  {
  }

  /** So once the guard has accepted, no check that it replaces could have failed, and each store
      lands inside the window, for every number of passes. */
  lemma LaterStoresInside(w: Window, s: Span, induction: u64, passes: nat)
    requires WindowValid(w) && SpanInside(w, s, induction) && induction + passes * s.step < s.limit
    ensures var later := induction + passes * s.step;
      SpanInside(w, s, later) && w.base <= GuestAddress(s, later) < w.base + w.size &&
      w.bytes <= Add64(w.bytes, Sub64(GuestAddress(s, later), w.base)) < w.bytes + w.size
  {
    assert passes * s.step >= 0;
  }
}
