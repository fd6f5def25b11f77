/**
 * `GlobalState` of `src/interop/global_state.rs`: resolves a queue request to
 * a dialogue through the file cache, suppresses repeated one-shot requests
 * and hands the result to the engine.
 */
module Interop {
  import opened Wrappers
  import opened Unicase
  import Dialogues
  import Engine
  import QueueParameters

  /** The extension appended to every requested file name. */
  const EXTENSION: string := ".adlib"

  /** The key of the one-shot set. */
  datatype FilenameSectionPair = FilenameSectionPair(filename: string, section: string)

  /** `PartialEq::eq`: both fields equal ignoring ASCII case. */
  predicate PairEq(a: FilenameSectionPair, b: FilenameSectionPair)
  {
    EqAscii(a.filename, b.filename) && EqAscii(a.section, b.section)
  }

  /** What `Hash::hash` feeds the hasher: both fields lowercased, file name first. */
  function HashInput(p: FilenameSectionPair): (string, string)
  {
    (ToAsciiLowercase(p.filename), ToAsciiLowercase(p.section))
  }

  /**
   * Equality and hash agree: equal pairs hash the same input (as a hash set
   * requires), and pairs hashing the same input are equal.
   */
  lemma EqConsistentWithHash(a: FilenameSectionPair, b: FilenameSectionPair)
    ensures PairEq(a, b) <==> HashInput(a) == HashInput(b)
  {
    EqAsciiIffSameLowercase(a.filename, b.filename);
    EqAsciiIffSameLowercase(a.section, b.section);
  }

  /** Pair equality is an equivalence relation, as `Eq` promises. */
  lemma PairEqIsEquivalence(a: FilenameSectionPair, b: FilenameSectionPair, c: FilenameSectionPair)
    ensures PairEq(a, a)
    ensures PairEq(a, b) ==> PairEq(b, a)
    ensures PairEq(a, b) && PairEq(b, c) ==> PairEq(a, c)
  {
    EqAsciiIsEquivalence(a.filename, b.filename, c.filename);
    EqAsciiIsEquivalence(a.section, b.section, c.section);
    EqAsciiIsEquivalence(b.filename, a.filename, c.filename);
    EqAsciiIsEquivalence(b.section, a.section, c.section);
  }

  /** The set already holds a pair equal to `key`. */
  predicate Recorded(keys: set<FilenameSectionPair>, key: FilenameSectionPair)
  {
    exists q :: q in keys && PairEq(q, key)
  }

  /**
   * The dialogue a request for `section` of `filename` plays, given what the
   * cache holds for the file: the first section of that name ignoring ASCII
   * case; otherwise an error naming the missing section; an error naming the
   * file when it is not cached.
   */
  function Resolve(file: Option<Dialogues.DialogueFile>, filename: string, section: string): (d: Engine.Script)
    ensures file.None? ==> d == Engine.FromError("Could not find dialogue file " + filename)
    ensures file.Some? && (forall i :: 0 <= i < |file.value.sections| ==> !EqAscii(section, file.value.sections[i].name)) ==>
      d == Engine.FromError("Could not find dialogue section " + section)
    ensures file.Some? && (exists i :: 0 <= i < |file.value.sections| && EqAscii(section, file.value.sections[i].name)) ==>
      d.Section? &&
      exists i :: 0 <= i < |file.value.sections| && file.value.sections[i] == d.dialogue &&
        EqAscii(section, d.dialogue.name) &&
        (forall j :: 0 <= j < i ==> !EqAscii(section, file.value.sections[j].name))
  {
    match file
    case None => Engine.FromError("Could not find dialogue file " + filename)
    case Some(f) =>
      match Dialogues.FindSection(f.sections, section)
      case Some(dialogue) => Engine.Section(dialogue)
      case None => Engine.FromError("Could not find dialogue section " + section)
  }

  /** The process-wide state behind the host interface. */
  class GlobalState {
    var path: string
    const engine: Engine.DialogueEngine
    const cache: Dialogues.DialogueCache
    var oneShotCache: set<FilenameSectionPair>

    /** The derived default: empty base path, idle engine, empty cache and one-shot set. */
    constructor ()
      ensures path == "" && oneShotCache == {}
      ensures fresh(engine) && fresh(cache)
      ensures engine.State() == Engine.Idle && engine.options == Engine.DefaultOptions()
      ensures cache.cache == map[]
    {
      path := "";
      engine := new Engine.DialogueEngine();
      cache := new Dialogues.DialogueCache();
      oneShotCache := {};
    }

    /**
     * `full_filename`: the base path, then the requested name, then the
     * `.adlib` extension.
     */
    function FullFilename(filename: string): (r: string)
      reads this
      ensures |r| == |path| + |filename| + |EXTENSION|
      ensures r[..|path|] == path
      ensures r[|path|..|path| + |filename|] == filename
      ensures r[|path| + |filename|..] == EXTENSION
    {
      path + filename + EXTENSION
    }

    /** `preload`: loads the file behind `filename` into the cache unless it is there. */
    method Preload(filename: string, read: Option<seq<string>>)
      requires FullFilename(filename) in cache.cache || (read.Some? && Dialogues.WellFormed(read.value))
      modifies cache
      ensures FullFilename(filename) in cache.cache
      ensures FullFilename(filename) in old(cache.cache) ==> cache.cache == old(cache.cache)
      ensures FullFilename(filename) !in old(cache.cache) ==>
        cache.cache == old(cache.cache)[FullFilename(filename) :=
          Dialogues.DialogueFile(Dialogues.Scan(FullFilename(filename), read.value))]
    {
      cache.Preload(FullFilename(filename), read);
    }

    /** `HashSet::insert` on the one-shot set: adds `key` unless an equal pair is there, and says whether it did. */
    method RecordOneShot(key: FilenameSectionPair) returns (added: bool)
      modifies this
      ensures path == old(path)
      ensures added <==> !Recorded(old(oneShotCache), key)
      ensures oneShotCache == if added then old(oneShotCache) + {key} else old(oneShotCache)
    {
      added := !exists q :: q in oneShotCache && PairEq(q, key);
      if added {
        oneShotCache := oneShotCache + {key};
      }
    }

    /**
     * `queue`: loads the file, then, for a one-shot request, records the pair
     * and gives up if an equal pair was recorded before; otherwise the engine
     * receives the resolved dialogue. A first one-shot request is recorded
     * even when the lookup that follows fails.
     */
    method Queue(args: QueueParameters.QueueParams, read: Option<seq<string>>, steps: nat)
      requires FullFilename(args.filename) in cache.cache || (read.Some? && Dialogues.WellFormed(read.value))
      modifies this, cache, engine
      ensures path == old(path) && engine.options == old(engine.options)
      ensures var full := FullFilename(args.filename);
        full in cache.cache &&
        cache.cache == if full in old(cache.cache) then old(cache.cache)
                       else old(cache.cache)[full := Dialogues.DialogueFile(Dialogues.Scan(full, read.value))]
      ensures !args.oneshot ==> oneShotCache == old(oneShotCache)
      ensures var key := FilenameSectionPair(args.filename, args.section);
        args.oneshot && Recorded(old(oneShotCache), key) ==>
          oneShotCache == old(oneShotCache) && engine.State() == old(engine.State())
      ensures var key := FilenameSectionPair(args.filename, args.section);
        args.oneshot && !Recorded(old(oneShotCache), key) ==> oneShotCache == old(oneShotCache) + {key}
      ensures var key := FilenameSectionPair(args.filename, args.section);
        !args.oneshot || !Recorded(old(oneShotCache), key) ==>
          engine.State() == Engine.Queued(old(engine.State()),
            Resolve(cache.Lookup(FullFilename(args.filename)), args.filename, args.section), steps)
    {
      Preload(args.filename, read);
      if args.oneshot {
        var key := FilenameSectionPair(args.filename, args.section);
        var added := RecordOneShot(key);
        if !added {
          return;
        }
      }
      var file := cache.Lookup(FullFilename(args.filename));
      if file.None? {
        // the preload above put the file in the cache, so the fallback to an
        // error naming the file (see Resolve) cannot be reached from here
        assert false;
      } else {
        var dialogue := Dialogues.Get(file.value, args.section);
        if dialogue.Some? {
          engine.Queue(Engine.Section(dialogue.value), steps);
        } else {
          engine.Queue(Engine.FromError("Could not find dialogue section " + args.section), steps);
        }
      }
    }
  }

  /** Distinct requested names map to distinct cache keys. */
  lemma FullFilenameInjective(g: GlobalState, a: string, b: string)
    ensures g.FullFilename(a) == g.FullFilename(b) ==> a == b
  {
    if g.FullFilename(a) == g.FullFilename(b) {
      var full := g.FullFilename(a);
      assert |a| == |b|;
      assert a == full[|g.path|..|g.path| + |a|];
    }
  }
}
