/** Acquiring the direct dependencies of one object from a provider
    (src/elf/linking/elf32_dependency_resolver.cpp:113-176). */
module DependencyResolver {
  import opened Words
  import opened Objects

  datatype ProviderAnswer = Found(identity: Name, image: seq<u8>) | NotFound | ProviderError

  /** What a provider answers to its n-th request, given the requester, the requested
      name and the byte limit.  Nothing at all is assumed of it. */
  type Answering = (nat, Name, Name, nat) -> ProviderAnswer

  class Provider {
    const answer: Answering
    var calls: nat

    constructor (answer: Answering)
      ensures this.answer == answer && calls == 0
    {
      this.answer, calls := answer, 0;
    }

    method ResolveFor(requester: Name, name: Name, limit: nat) returns (r: ProviderAnswer)
      modifies this
      ensures r == answer(old(calls), requester, name, limit) && calls == old(calls) + 1
    {
      r := answer(calls, requester, name, limit);
      calls := calls + 1;
    }
  }

  datatype ResolveError =
    | TooManyDependencies | EmptyDependencyName | DependencyNotFound | ProviderFailed | EmptyProviderIdentity
    | EmptyDependencyImage | ImageTooLarge | TotalImageBytesExceeded

  datatype Dependency = Dependency(requestedName: Name, identity: Name, image: seq<u8>)

  datatype ResolveOptions = ResolveOptions(maxDependencies: u32, maxImageBytes: nat, maxTotalBytes: nat, requester: Name)

  /** `d` is the provider's answer to its n-th request, made by `requester` with `remaining` bytes
      left, and it is acceptable. */
  predicate Answer(answer: Answering, n: nat, requester: Name, maxImage: nat, remaining: nat, d: Dependency) {
    && d.requestedName != [] && d.identity != [] && d.image != [] && |d.image| <= Min(maxImage, remaining)
    && answer(n, requester, d.requestedName, Min(maxImage, remaining)) == Found(d.identity, d.image)
  }

  /** One request under the byte limits. */
  function Request(answer: Answering, n: nat, requester: Name, name: Name, maxImage: nat, remaining: nat)
    : (r: Result<Dependency, ResolveError>)
    ensures r.Ok? ==> r.value.requestedName == name && Answer(answer, n, requester, maxImage, remaining, r.value)
  {
    if name == [] then Err(EmptyDependencyName)
    else if remaining == 0 then Err(TotalImageBytesExceeded)
    else if maxImage == 0 then Err(ImageTooLarge)
    else
      var limit: nat := Min(maxImage, remaining);
      match answer(n, requester, name, limit)
      case NotFound => Err(DependencyNotFound)
      case ProviderError => Err(ProviderFailed)
      case Found(identity, image) =>
        if identity == [] then Err(EmptyProviderIdentity)
        else if image == [] then Err(EmptyDependencyImage)
        else if |image| > limit then Err(if remaining < maxImage then TotalImageBytesExceeded else ImageTooLarge)
        else Ok(Dependency(name, identity, image))
  }

  function RequestAll(answer: Answering, n: nat, requester: Name, needed: seq<Name>, maxImage: nat, remaining: nat,
                      done: seq<Dependency>): Result<seq<Dependency>, ResolveError>
    decreases |needed|
  {
    if needed == [] then Ok(done)
    else match Request(answer, n, requester, needed[0], maxImage, remaining)
         case Err(e) => Err(e)
         case Ok(d) => RequestAll(answer, n + 1, requester, needed[1..], maxImage, remaining - |d.image|, done + [d])
  }

  function Acquired(ds: seq<Dependency>): nat {
    if ds == [] then 0 else |ds[0].image| + Acquired(ds[1..])
  }

  function Resolution(answer: Answering, n: nat, needed: seq<Name>, o: ResolveOptions): Result<seq<Dependency>, ResolveError> {
    if |needed| > o.maxDependencies then Err(TooManyDependencies)
    else RequestAll(answer, n, o.requester, needed, o.maxImageBytes, o.maxTotalBytes, [])
  }

  /** resolve_elf32_dependencies.  The subtraction of the running total never goes below zero. */
  method ResolveDependencies(p: Provider, needed: seq<Name>, o: ResolveOptions) returns (r: Result<seq<Dependency>, ResolveError>)
    modifies p
    ensures r == Resolution(p.answer, old(p.calls), needed, o)
    ensures old(p.calls) <= p.calls <= old(p.calls) + |needed|
    ensures |needed| > o.maxDependencies ==> p.calls == old(p.calls)
    ensures r.Ok? ==> p.calls == old(p.calls) + |needed|
  {
    if |needed| > o.maxDependencies {
      return Err(TooManyDependencies);
    }
    var ordered: seq<Dependency> := [];
    var total: nat := 0;
    for i := 0 to |needed|
      invariant p.calls == old(p.calls) + i && total <= o.maxTotalBytes
      invariant RequestAll(p.answer, p.calls, o.requester, needed[i..], o.maxImageBytes, o.maxTotalBytes - total, ordered)
                == RequestAll(p.answer, old(p.calls), o.requester, needed, o.maxImageBytes, o.maxTotalBytes, [])
    {
      assert needed[i..][1..] == needed[i + 1..];
      var name := needed[i];
      if name == [] {
        return Err(EmptyDependencyName);
      }
      var remaining: nat := o.maxTotalBytes - total;
      if remaining == 0 {
        return Err(TotalImageBytesExceeded);
      }
      if o.maxImageBytes == 0 {
        return Err(ImageTooLarge);
      }
      var limit: nat := Min(o.maxImageBytes, remaining);
      var found := p.ResolveFor(o.requester, name, limit);
      match found {
        case NotFound =>
          return Err(DependencyNotFound);
        case ProviderError =>
          return Err(ProviderFailed);
        case Found(identity, image) =>
          if identity == [] {
            return Err(EmptyProviderIdentity);
          }
          if image == [] {
            return Err(EmptyDependencyImage);
          }
          if |image| > limit {
            return Err(if remaining < o.maxImageBytes then TotalImageBytesExceeded else ImageTooLarge);
          }
          // The limit covers the remaining total, so the second total check of the source cannot fire.
          total := total + |image|;
          ordered := ordered + [Dependency(name, identity, image)];
      }
    }
    return Ok(ordered);
  }

  lemma {:induction false} AcquiredPush(ds: seq<Dependency>, d: Dependency)
    ensures Acquired(ds + [d]) == Acquired(ds) + |d.image|
  {
    if ds == [] {
      assert [d][1..] == [];
    } else {
      AcquiredPush(ds[1..], d);
      assert (ds + [d])[1..] == ds[1..] + [d];
    }
  }

  /** `ds[k]` is the answer to the request for `name`, with the bytes of the earlier ones spent. */
  ghost predicate GoodDependency(answer: Answering, n: nat, requester: Name, name: Name, maxImage: nat, remaining: nat,
                                 ds: seq<Dependency>, k: nat)
    requires k < |ds|
  {
    && ds[k].requestedName == name && Acquired(ds[..k]) <= remaining
    && Answer(answer, n, requester, maxImage, remaining - Acquired(ds[..k]), ds[k])
  }

  lemma {:induction false} RequestAllMeaning(answer: Answering, n: nat, requester: Name, needed: seq<Name>, i: nat, maxImage: nat,
                                             remaining: nat, done: seq<Dependency>)
    requires i <= |needed| && |done| == i && Acquired(done) <= remaining
    requires forall k :: 0 <= k < i ==> GoodDependency(answer, n + k, requester, needed[k], maxImage, remaining, done, k)
    requires RequestAll(answer, n + i, requester, needed[i..], maxImage, remaining - Acquired(done), done).Ok?
    ensures var ds := RequestAll(answer, n + i, requester, needed[i..], maxImage, remaining - Acquired(done), done).value;
            && |ds| == |needed| && Acquired(ds) <= remaining
            && forall k :: 0 <= k < |ds| ==> GoodDependency(answer, n + k, requester, needed[k], maxImage, remaining, ds, k)
    decreases |needed| - i
  {
    hide Request, Answer;
    if i == |needed| {
      return;
    }
    assert needed[i..][1..] == needed[i + 1..];
    var d := Request(answer, n + i, requester, needed[i], maxImage, remaining - Acquired(done)).value;
    var more := done + [d];
    AcquiredPush(done, d);
    AnswerFits(answer, n + i, requester, maxImage, remaining - Acquired(done), d);
    forall k | 0 <= k <= i
      ensures GoodDependency(answer, n + k, requester, needed[k], maxImage, remaining, more, k)
    {
      if k < i {
        assert more[..k] == done[..k];
        assert GoodDependency(answer, n + k, requester, needed[k], maxImage, remaining, done, k);
      } else {
        assert more[..k] == done;
      }
    }
    RequestAllMeaning(answer, n, requester, needed, i + 1, maxImage, remaining, more);
  }

  lemma {:induction false} AnswerFits(answer: Answering, n: nat, requester: Name, maxImage: nat, remaining: nat, d: Dependency)
    requires Answer(answer, n, requester, maxImage, remaining, d)
    ensures |d.image| <= remaining
  {
  }

  /** The dependencies are the needed names in order, each with exactly what the provider answered
      to that request, and together within the byte budget. */
  lemma {:induction false} ResolutionMeaning(answer: Answering, n: nat, needed: seq<Name>, o: ResolveOptions)
    requires Resolution(answer, n, needed, o).Ok?
    ensures var ds := Resolution(answer, n, needed, o).value;
            && |ds| == |needed| <= o.maxDependencies && Acquired(ds) <= o.maxTotalBytes
            && forall k :: 0 <= k < |ds| ==>
                 GoodDependency(answer, n + k, o.requester, needed[k], o.maxImageBytes, o.maxTotalBytes, ds, k)
  {
    hide Answer;
    assert needed[0..] == needed;
    RequestAllMeaning(answer, n, o.requester, needed, 0, o.maxImageBytes, o.maxTotalBytes, []);
  }
}
