/** The generator (src/Generators/Generator.php): a word-list cache filled on
    demand, the registered requirements and the attempt ceiling, and `make`,
    which expands a format string until the candidate passes every requirement
    or the ceiling is reached.

    Reading and JSON-decoding a word-list file is the function `store`, from a
    file path to the list of words in it. The random draw of
    `array_random_value` is a nondeterministic choice of an index. */
module Generators {
  import opened Php
  import opened Requirements
  import opened Templates

  /** A PHP value handed to `requirement()`: an object implementing
      `RequirementContract`, a `Closure` over the buffer, or anything else. */
  datatype Value =
    | Contract(requirement: Requirement)
    | Closure(call: Bytes -> bool)
    | Other

  /** What `make` produces: a string, `null` once the ceiling is reached, or,
      when there is no ceiling, the state after `fuel` failed attempts in which
      the PHP loop would still be running. */
  datatype Outcome = Made(value: Bytes) | NoResult | OutOfFuel

  /** The value can be registered: it is a requirement object or a closure. */
  predicate IsRequirement(v: Value)
  {
    v.Contract? || v.Closure?
  }

  /** `satisfiesRequirement($buffer, $requirement)`. Its last branch, `return
      false`, is taken only by a value that cannot be registered. */
  function SatisfiesRequirement(buffer: Bytes, v: Value): (ok: bool)
    ensures ok ==> IsRequirement(v)
  {
    match v
    case Contract(r) => r.Passes(buffer)
    case Closure(call) => call(buffer)
    case Other => false
  }

  /** Every requirement in `reqs` passes `buffer`. */
  predicate Accepts(reqs: seq<Value>, buffer: Bytes)
  {
    forall i :: 0 <= i < |reqs| ==> SatisfiesRequirement(buffer, reqs[i])
  }

  /** A ceiling is in force unless it is `null` or 0 (`$maxAttempts == null`
      is true of both). */
  predicate Bounded(maxAttempts: Option<int>)
  {
    maxAttempts.Some? && maxAttempts.value != 0
  }

  /** `tooManyAttempts($attempts)`. Only a ceiling in force stops the loop,
      and a negative ceiling stops it before the first attempt. */
  function TooManyAttempts(maxAttempts: Option<int>, attempts: int): (r: bool)
    ensures r ==> Bounded(maxAttempts)
    ensures maxAttempts.Some? && maxAttempts.value < 0 && attempts >= 0 ==> r
  {
    if !Bounded(maxAttempts) then false else attempts >= maxAttempts.value
  }

  /** Without a ceiling, or with the ceiling 0, no number of attempts is too many. */
  lemma UnboundedNeverTooMany(maxAttempts: Option<int>, attempts: int)
    requires maxAttempts == None || maxAttempts == Some(0)
    ensures !TooManyAttempts(maxAttempts, attempts)
  {
  }

  /** With a non-zero ceiling `n`, `a` attempts are too many exactly when `a >= n`. */
  lemma BoundedTooMany(n: int, attempts: int)
    requires n != 0
    ensures TooManyAttempts(Some(n), attempts) <==> attempts >= n
  {
  }

  /** Once attempts are too many, more attempts are too many as well. */
  lemma TooManyMonotone(maxAttempts: Option<int>, a: int, b: int)
    requires TooManyAttempts(maxAttempts, a) && a <= b
    ensures TooManyAttempts(maxAttempts, b)
  {
  }

  /** `DIRECTORY_SEPARATOR` on a POSIX system. */
  const Separator: byte := 0x2F
  /** The extension `.json`. */
  const JsonExtension: Bytes := [0x2E, 0x6A, 0x73, 0x6F, 0x6E]

  /** `filePath($name)`: `<directory>/<name>.json`. */
  function FilePath(directory: Bytes, name: Bytes): (path: Bytes)
    ensures |path| == |directory| + |name| + 6
  {
    directory + [Separator] + name + JsonExtension
  }

  /** Different names are read from different files of the same directory. */
  lemma FilePathInjective(directory: Bytes, a: Bytes, b: Bytes)
    requires FilePath(directory, a) == FilePath(directory, b)
    ensures a == b
  {
    var d := |directory| + 1;
    assert FilePath(directory, a)[d..d + |a|] == a;
    assert FilePath(directory, b)[d..d + |b|] == b;
  }

  /** The number of leading values of `vs` that can be registered. */
  function RegistrablePrefix(vs: seq<Value>): (k: nat)
    ensures k <= |vs|
    ensures forall i :: 0 <= i < k ==> IsRequirement(vs[i])
    ensures k < |vs| ==> !IsRequirement(vs[k])
  {
    if vs != [] && IsRequirement(vs[0]) then 1 + RegistrablePrefix(vs[1..]) else 0
  }

  /** `word` can be what `array_random_value` returns for `list`: an element
      of a non-empty list. For an empty list `$array[0]` is `null`, which
      `substr_replace` then takes as the empty string. */
  predicate Drawable(list: seq<Bytes>, word: Bytes)
  {
    if list == [] then word == [] else word in list
  }

  /** `array_random_value($array)`: `shuffle` and take the first element, that
      is, some element of the list. */
  method ArrayRandomValue(list: seq<Bytes>) returns (word: Bytes)
    ensures |list| > 0 ==> word in list
    ensures list == [] ==> word == []
  {
    if list == [] {
      return [];
    }
    var i :| 0 <= i < |list|;
    word := list[i];
  }

  class Generator {
    /** `$words`: the loaded word lists, by holder name. */
    var words: map<Bytes, seq<Bytes>>
    /** `$directory`. */
    const directory: Bytes
    /** The decoded contents of the word-list file at a path. */
    const store: Bytes -> seq<Bytes>
    /** `$requirements`. */
    var requirements: seq<Value>
    /** `$maxAttempts`. */
    var maxAttempts: Option<int>

    /** Only requirement objects and closures are ever registered, so the
        `return false` branch of `satisfiesRequirement` is never taken for a
        registered requirement (`RegisteredReachesVerdict`). */
    ghost predicate Valid()
      reads this
    {
      forall i :: 0 <= i < |requirements| ==> IsRequirement(requirements[i])
    }

    /** The word list `load` reads for `name`. */
    function Stored(name: Bytes): seq<Bytes>
    {
      store(FilePath(directory, name))
    }

    /** `after` extends `before`: no entry was changed or dropped, and every
        new entry is the stored list of its name. */
    ghost predicate Grown(before: map<Bytes, seq<Bytes>>, after: map<Bytes, seq<Bytes>>)
    {
      && (forall n :: n in before ==> n in after && after[n] == before[n])
      && (forall n :: n in after && n !in before ==> after[n] == Stored(n))
    }

    /** The cache has only grown since `before`. */
    ghost predicate CacheGrew(before: map<Bytes, seq<Bytes>>)
      reads this
    {
      Grown(before, words)
    }

    lemma GrownTransitive(a: map<Bytes, seq<Bytes>>, b: map<Bytes, seq<Bytes>>, c: map<Bytes, seq<Bytes>>)
      requires Grown(a, b) && Grown(b, c)
      ensures Grown(a, c)
    {
    }

    /** Every name cached in `after` but not in `before` is the truthy name of
        a holder of `format`: only those names are loaded. */
    static ghost predicate LoadedFor(before: map<Bytes, seq<Bytes>>, after: map<Bytes, seq<Bytes>>, format: Bytes)
    {
      forall n :: n in after && n !in before ==>
        exists h :: h in Holders(format) && !IsFalsy(Name(h)) && Name(h) == Some(n)
    }

    /** Going from `before` to `after`, the cache has grown by the stored
        lists of truthy holder names of `format`, and only by those. */
    ghost predicate Fetched(before: map<Bytes, seq<Bytes>>, after: map<Bytes, seq<Bytes>>, format: Bytes)
    {
      Grown(before, after) && LoadedFor(before, after, format)
    }

    lemma FetchedTransitive(a: map<Bytes, seq<Bytes>>, b: map<Bytes, seq<Bytes>>, c: map<Bytes, seq<Bytes>>, format: Bytes)
      requires Fetched(a, b, format) && Fetched(b, c, format)
      ensures Fetched(a, c, format)
    {
      GrownTransitive(a, b, c);
    }

    /** `word` is a possible replacement for `holder` given the cache `cache`:
        the holder itself when its name is falsy, else a word of its list. */
    static ghost predicate Chosen(holder: Bytes, word: Bytes, cache: map<Bytes, seq<Bytes>>)
    {
      var name := Name(holder);
      if IsFalsy(name) then word == holder else name.value in cache && Drawable(cache[name.value], word)
    }

    /** `ws` are possible replacements for the holders `hs`, one for one. */
    static ghost predicate Drawn(hs: seq<Bytes>, ws: seq<Bytes>, cache: map<Bytes, seq<Bytes>>)
    {
      |ws| == |hs| && forall k :: 0 <= k < |hs| ==> Chosen(hs[k], ws[k], cache)
    }

    constructor (directory: Bytes, maxAttempts: Option<int>, store: Bytes -> seq<Bytes>)
      ensures Valid()
      ensures this.directory == directory && this.maxAttempts == maxAttempts && this.store == store
      ensures words == map[] && requirements == []
    {
      this.directory := directory;
      this.maxAttempts := maxAttempts;
      this.store := store;
      words := map[];
      requirements := [];
    }

    /** `load($name)`: read the list for `name` into the cache. */
    method Load(name: Bytes)
      modifies this`words
      ensures words == old(words)[name := Stored(name)]
    {
      words := words[name := Stored(name)];
    }

    /** `random($name)`: load the list on a cache miss, then draw from it. */
    method Random(name: Bytes) returns (word: Bytes)
      modifies this`words
      ensures name in words && Drawable(words[name], word)
      ensures name in old(words) ==> words == old(words)
      ensures name !in old(words) ==> words == old(words)[name := Stored(name)]
    {
      if name !in words {
        Load(name);
      }
      word := ArrayRandomValue(words[name]);
    }

    /** `replacement($holder)`: a random word for a truthy name, the holder itself otherwise. */
    method Replacement(holder: Bytes) returns (word: Bytes)
      modifies this`words
      ensures Chosen(holder, word, words)
      ensures CacheGrew(old(words))
      ensures IsFalsy(Name(holder)) ==> words == old(words)
      ensures !IsFalsy(Name(holder)) ==>
                words == if Name(holder).value in old(words) then old(words)
                         else old(words)[Name(holder).value := Stored(Name(holder).value)]
    {
      var name := Name(holder);
      if !IsFalsy(name) {
        word := Random(name.value);
      } else {
        word := holder;
      }
    }

    /** A possible replacement stays possible once the cache has grown. */
    static lemma DrawnPersists(hs: seq<Bytes>, ws: seq<Bytes>, before: map<Bytes, seq<Bytes>>, after: map<Bytes, seq<Bytes>>)
      requires Drawn(hs, ws, before)
      requires forall n :: n in before ==> n in after && after[n] == before[n]
      ensures Drawn(hs, ws, after)
    {
    }

    /** Drawing one more replacement, for the next holder. */
    static lemma DrawnAppend(hs: seq<Bytes>, ws: seq<Bytes>, w: Bytes, cache: map<Bytes, seq<Bytes>>)
      requires |ws| < |hs| && Drawn(hs[..|ws|], ws, cache) && Chosen(hs[|ws|], w, cache)
      ensures Drawn(hs[..|ws| + 1], ws + [w], cache)
    {
      var i := |ws|;
      forall k | 0 <= k < i + 1
        ensures Chosen(hs[..i + 1][k], (ws + [w])[k], cache)
      {
        if k < i {
          assert hs[..i + 1][k] == hs[..i][k];
        }
      }
    }

    /** `generate($format)`: every holder of the format, in order, has its
        first occurrence in the buffer replaced by its replacement. */
    method Generate(format: Bytes) returns (buffer: Bytes, ghost ws: seq<Bytes>)
      modifies this`words
      ensures Fetched(old(words), words, format)
      ensures Drawn(Holders(format), ws, words)
      ensures buffer == Fill(format, Holders(format), ws)
    {
      var hs := Holders(format);
      buffer := format;
      ws := [];
      for i := 0 to |hs|
        invariant Fetched(old(words), words, format)
        invariant Drawn(hs[..i], ws, words)
        invariant buffer == Fill(format, hs[..i], ws)
      {
        ghost var cache := words;
        var replacement := Replacement(hs[i]);
        assert hs[i] in hs;
        assert Fetched(cache, words, format);
        FetchedTransitive(old(words), cache, words, format);
        DrawnPersists(hs[..i], ws, cache, words);
        DrawnAppend(hs, ws, replacement, words);
        FillStep(format, hs, ws, replacement);
        buffer := Replace(buffer, hs[i], replacement);
        ws := ws + [replacement];
      }
      assert hs[..|hs|] == hs;
    }

    /** `satisfiesRequirements($buffer)`: every registered requirement passes. */
    method SatisfiesRequirements(buffer: Bytes) returns (ok: bool)
      ensures ok == Accepts(requirements, buffer)
    {
      for i := 0 to |requirements|
        invariant forall j :: 0 <= j < i ==> SatisfiesRequirement(buffer, requirements[j])
      {
        if !SatisfiesRequirement(buffer, requirements[i]) {
          return false;
        }
      }
      return true;
    }

    /** Each of `tries` is `format` filled with the words of the matching entry
        of `draws`, which are possible replacements given `cache`. */
    static ghost predicate Expansions(format: Bytes, tries: seq<Bytes>, draws: seq<seq<Bytes>>, cache: map<Bytes, seq<Bytes>>)
    {
      && |draws| == |tries|
      && forall k :: 0 <= k < |tries| ==>
           Drawn(Holders(format), draws[k], cache) && tries[k] == Fill(format, Holders(format), draws[k])
    }

    /** One more expansion, recorded against a cache that has grown. */
    lemma ExpansionsExtend(format: Bytes, tries: seq<Bytes>, draws: seq<seq<Bytes>>,
                           before: map<Bytes, seq<Bytes>>, after: map<Bytes, seq<Bytes>>,
                           t: Bytes, ws: seq<Bytes>)
      requires Expansions(format, tries, draws, before)
      requires Fetched(before, after, format)
      requires Drawn(Holders(format), ws, after) && t == Fill(format, Holders(format), ws)
      ensures Expansions(format, tries + [t], draws + [ws], after)
    {
      forall k | 0 <= k < |tries|
        ensures Drawn(Holders(format), draws[k], after)
      {
        DrawnPersists(Holders(format), draws[k], before, after);
      }
    }

    /** No candidate of `tries` passes all of `reqs`. */
    static ghost predicate AllFail(reqs: seq<Value>, tries: seq<Bytes>)
    {
      forall k :: 0 <= k < |tries| ==> !Accepts(reqs, tries[k])
    }

    /** The number of attempts a ceiling in force allows. */
    static function Allowed(maxAttempts: Option<int>): nat
      requires Bounded(maxAttempts)
    {
      if maxAttempts.value < 0 then 0 else maxAttempts.value
    }

    /** With no requirements registered, the first candidate is accepted:
        `make` returns after a single attempt. */
    static lemma NoRequirementsFirstAttempt(tries: seq<Bytes>)
      requires AllFail([], tries)
      ensures tries == []
    {
      if tries != [] {
        assert Accepts([], tries[0]);
      }
    }

    /** A format without holders is its own only expansion: every candidate
        `make` generates for it is the format itself. */
    static lemma NoHoldersOnlyFormat(format: Bytes, tries: seq<Bytes>, draws: seq<seq<Bytes>>, cache: map<Bytes, seq<Bytes>>)
      requires Holders(format) == [] && Expansions(format, tries, draws, cache)
      ensures forall k :: 0 <= k < |tries| ==> tries[k] == format
    {
    }

    /** A registered value reaches a verdict of its own: the `passes` of a
        requirement object or the result of a closure. */
    static lemma RegisteredReachesVerdict(buffer: Bytes, v: Value)
      requires IsRequirement(v)
      ensures SatisfiesRequirement(buffer, v) == if v.Contract? then v.requirement.Passes(buffer) else v.call(buffer)
    {
    }

    /** The holder `{0}` has a falsy name: its only replacement is itself,
        and replacing it leaves the buffer as it was. */
    static lemma ZeroHolderStaysLiteral(buffer: Bytes, w: Bytes, cache: map<Bytes, seq<Bytes>>)
      requires Chosen([OpenBrace, 0x30, CloseBrace], w, cache)
      ensures w == [OpenBrace, 0x30, CloseBrace]
      ensures Replace(buffer, [OpenBrace, 0x30, CloseBrace], w) == buffer
    {
      var h: Bytes := [OpenBrace, 0x30, CloseBrace];
      assert IsHolder(h);
      FalsyHolder(h);
      ReplaceBySelf(h, buffer);
    }

    /** `make($format, $maxAttempts, $preserveRequirements)`.

        `tries` are the candidates generated, in order, and `draws` the words
        drawn for each. `fuel` bounds the loop only when no ceiling is in force. */
    method Make(format: Bytes, limit: Option<int>, preserveRequirements: bool, fuel: nat)
      returns (r: Outcome, ghost tries: seq<Bytes>, ghost draws: seq<seq<Bytes>>)
      requires Valid()
      modifies this`words, this`requirements, this`maxAttempts
      ensures Valid()
      ensures maxAttempts == if limit.Some? then limit else old(maxAttempts)
      // only the stored lists of the format's truthy holder names are loaded
      ensures Fetched(old(words), words, format)
      // the candidates are expansions of the format
      ensures Expansions(format, tries, draws, words)
      // a ceiling in force bounds the attempts, and NoResult means all it allowed failed
      ensures Bounded(maxAttempts) ==> |tries| <= Allowed(maxAttempts)
      ensures r.NoResult? ==> Bounded(maxAttempts) && |tries| == Allowed(maxAttempts)
      ensures r.OutOfFuel? ==> !Bounded(maxAttempts) && |tries| == fuel
      ensures !r.Made? ==> AllFail(old(requirements), tries)
      // a string is returned only when it passes every requirement, and the attempts before it failed
      ensures r.Made? ==> && |tries| > 0 && r.value == tries[|tries| - 1]
                          && Accepts(old(requirements), r.value)
                          && AllFail(old(requirements), tries[..|tries| - 1])
      // requirements are cleared only after a success without preserveRequirements
      ensures requirements == if r.Made? && !preserveRequirements then [] else old(requirements)
    {
      maxAttempts := if limit.Some? then limit else maxAttempts;
      var buffer: Bytes := [];
      var attempts: nat := 0;
      tries, draws := [], [];
      while true
        invariant attempts == |tries|
        invariant Valid()
        invariant requirements == old(requirements)
        invariant maxAttempts == if limit.Some? then limit else old(maxAttempts)
        invariant Fetched(old(words), words, format)
        invariant Bounded(maxAttempts) ==> attempts <= Allowed(maxAttempts)
        invariant !Bounded(maxAttempts) ==> attempts <= fuel
        invariant Expansions(format, tries, draws, words)
        invariant AllFail(requirements, tries)
        decreases if Bounded(maxAttempts) then maxAttempts.value - attempts else fuel - attempts
      {
        if TooManyAttempts(maxAttempts, attempts) {
          return NoResult, tries, draws;
        }
        if !Bounded(maxAttempts) && attempts == fuel {
          return OutOfFuel, tries, draws;
        }
        ghost var cache := words;
        ghost var ws;
        buffer, ws := Generate(format);
        FetchedTransitive(old(words), cache, words, format);
        ExpansionsExtend(format, tries, draws, cache, words, buffer, ws);
        attempts := attempts + 1;
        ghost var failed := tries;
        tries, draws := tries + [buffer], draws + [ws];
        var ok := SatisfiesRequirements(buffer);
        if ok {
          assert tries[..|tries| - 1] == failed;
          break;
        }
      }
      if !preserveRequirements {
        requirements := [];
      }
      r := Made(buffer);
    }

    /** `requirement($requirement)`: register one requirement, or refuse a
        value that is neither a requirement object nor a closure (the
        `NotARequirementException`), leaving the list unchanged. */
    method AddRequirement(v: Value) returns (ok: bool)
      requires Valid()
      modifies this`requirements
      ensures Valid()
      ensures ok == IsRequirement(v)
      ensures requirements == if ok then old(requirements) + [v] else old(requirements)
    {
      if !IsRequirement(v) {
        return false;
      }
      requirements := requirements + [v];
      return true;
    }

    /** `requirements($requirements)`: register the values in order; the first
        value that is refused stops it, and the ones before it stay registered. */
    method AddRequirements(vs: seq<Value>) returns (ok: bool)
      requires Valid()
      modifies this`requirements
      ensures Valid()
      ensures ok <==> forall i :: 0 <= i < |vs| ==> IsRequirement(vs[i])
      ensures requirements == old(requirements) + vs[..RegistrablePrefix(vs)]
    {
      for i := 0 to |vs|
        invariant Valid()
        invariant forall j :: 0 <= j < i ==> IsRequirement(vs[j])
        invariant requirements == old(requirements) + vs[..i]
      {
        var added := AddRequirement(vs[i]);
        if !added {
          return false;
        }
        assert vs[..i + 1] == vs[..i] + [vs[i]];
      }
      assert vs[..|vs|] == vs;
      return true;
    }
  }
}
