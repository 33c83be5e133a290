/** A whole store: the ids a run allocates, the bodies made for them, and the file (src/mail.cpp). */
module StoreRun {
  import opened Allocator
  import opened Bytes
  import opened Chunks
  import opened FolderRun
  import opened Image
  import opened Ndb
  import opened PstRun
  import opened ScheduleRun
  import opened Sorting
  import opened Wrappers

  /** What a node gets besides its id. */
  datatype Payload = Payload(parent: Nid, body: seq<Byte>, parts: seq<Part>)

  datatype StoreError = NoIndexLeft | NotWritten(error: ImageError)

  /** The plan of a run with `counts[f]` messages in folder `f`. */
  function PlanFor(counts: seq<nat>): Plan {
    Plan(FoldersUpTo(|counts|), MessagesUpTo(counts))
  }

  /** The nodes of a plan in the order they are scheduled; what each holds may depend on all ids of the plan. */
  function Planned(plan: Plan, fill: (Plan, nat) -> Payload): (contents: seq<Content>)
    ensures |contents| == |NodesOf(plan)|
    ensures forall k | 0 <= k < |contents| ::
              contents[k] == Content(NodesOf(plan)[k], fill(plan, k).parent, fill(plan, k).body, fill(plan, k).parts)
  {
    seq(|NodesOf(plan)|, k requires 0 <= k < |NodesOf(plan)| =>
          Content(NodesOf(plan)[k], fill(plan, k).parent, fill(plan, k).body, fill(plan, k).parts))
  }

  lemma PlannedAreDistinct(counts: seq<nat>, fill: (Plan, nat) -> Payload)
    requires Enough(|counts|, MessageCount(counts))
    ensures DistinctKeys(Planned(PlanFor(counts), fill), ContentKey)
  {
    hide Planned, NodesOf;
    PlanIsDistinct(counts);
  }

  /** Which error a store of these nodes gives, if any. */
  ghost function StoreFailure(counts: seq<nat>, contents: seq<Content>): Option<StoreError> {
    if !Enough(|counts|, MessageCount(counts)) then Some(NoIndexLeft)
    else if Total(contents, ContentBlocks) > 400 then Some(NotWritten(TooManyBlocks))
    else if |contents| > 300 then Some(NotWritten(TooManyNodes))
    else None
  }

  /**
   Allocates ids for folders and messages, fills the nodes in, and writes them: which error arises is decided by the
   counts and the sizes, and every file that is written gives every node and subnode back, whatever they hold.
   */
  method WriteStore(counts: seq<nat>, fill: (Plan, nat) -> Payload) returns (r: Result<seq<Byte>, StoreError>)
    requires forall k | 0 <= k < |Planned(PlanFor(counts), fill)| :: |Planned(PlanFor(counts), fill)[k].body| < 0x1_0000
    // The 62-bit counters suffice.
    requires Total(Planned(PlanFor(counts), fill), ContentBlocks) + 3 < ID_LIMIT
    ensures var contents := Planned(PlanFor(counts), fill);
            match StoreFailure(counts, contents)
            case Some(e) => r == Failure(e)
            case None => r.Success? && FindsAll(r.value, contents) && BlocksAreInOrder(r.value, contents)
  {
    hide Planned, FindsAll, BlocksAreInOrder, DistinctKeys, Total, ContentBlocks, FoldersUpTo, MessagesUpTo;
    var plan := AllocateRun(counts);
    if plan.Failure? {
      return Failure(NoIndexLeft);
    }
    PlannedAreDistinct(counts, fill);
    var file := WriteContents(Planned(plan.value, fill));
    if file.Failure? {
      return Failure(NotWritten(file.error));
    }
    return Success(file.value);
  }
}
