/**
 * The "Tasks Assigned to Me" list component: its two pieces of state, the
 * effect that fills the list when query data arrives, the search handler, and
 * what one render shows.
 */
module AssignedTaskList {
  import opened Wrappers
  import opened Text
  import opened TaskFilter

  /** What one render produces: the loading placeholder, or the table. */
  datatype Screen =
    | Loading
    | Table(searchBar: bool, rows: seq<Task>)

  class ListAssignedTasks {
    /** The tasks kept from the latest query data (`useState([])`). */
    var tasksToList: seq<Task>
    /** The lower-cased search term (`useState('')`). */
    var searchInput: string
    /** Whether the search handler has ever run on this instance. */
    ghost var searched: bool

    /**
     * The term is always lower case, and it is still empty as long as nothing
     * has been typed into the search box.
     */
    ghost predicate Valid()
      reads this
    {
      IsLower(searchInput) && (!searched ==> searchInput == "")
    }

    /** Mounting the component: no tasks yet and an empty term. */
    constructor ()
      ensures Valid() && !searched
      ensures tasksToList == [] && searchInput == ""
    {
      tasksToList := [];
      searchInput := "";
      searched := false;
    }

    /**
     * The effect run when `data` or `isLimited` changes: with data present the
     * list becomes its derived subset; with data absent it keeps its value.
     * An omitted `isLimited` prop is `undefined`, which keeps the full list.
     */
    method OnData(data: Option<AssignedTasks>, isLimited: bool := false)
      requires Valid()
      modifies this`tasksToList
      ensures Valid()
      ensures data.Some? ==> tasksToList == Derive(data.value.tasks, isLimited)
      ensures data.Some? && isLimited ==> |tasksToList| <= Limit && tasksToList <= data.value.tasks
      ensures data.None? ==> tasksToList == old(tasksToList)
    {
      if data.Some? {
        tasksToList := Derive(data.value.tasks, isLimited);
      }
    }

    /**
     * The search box's change handler: the typed text is lower-cased and
     * stored as the term. The term outlives the box: it is kept when a later
     * render hides the controls.
     */
    method OnSearchInput(text: string)
      requires Valid()
      modifies this`searchInput, this`searched
      ensures Valid() && searched
      ensures searchInput == Lower(text)
      ensures Lower(searchInput) == searchInput
      ensures tasksToList == old(tasksToList)
    {
      searchInput := Lower(text);
      searched := true;
      LowerIdempotent(text);
    }

    /**
     * The rows the table body shows for the current state. Rendering only
     * reads the state; with an empty term every kept task is shown.
     */
    function Rendered(): (r: seq<Task>)
      reads this
      ensures |r| <= |tasksToList|
      ensures searchInput == "" ==> r == tasksToList
    {
      RenderEmptyTerm(tasksToList);
      Render(tasksToList, searchInput)
    }

    /**
     * One render with the current `isLoading` and `showControls` (which
     * defaults to true): the placeholder while loading, otherwise the table.
     */
    function View(isLoading: bool, showControls: bool := true): (v: Screen)
      reads this
      ensures isLoading <==> v.Loading?
      ensures v.Table? ==> v.searchBar == showControls && v.rows == Rendered()
    {
      if isLoading then Loading else Table(showControls, Rendered())
    }
  }

  /**
   * An instance whose search box was never typed into (for one, an instance
   * whose controls have been hidden on every render since mount) shows every
   * kept task, whatever `showControls` is now.
   */
  lemma NeverSearchedShowsAll(c: ListAssignedTasks, showControls: bool)
    requires c.Valid() && !c.searched
    ensures c.View(false, showControls) == Table(showControls, c.tasksToList)
  {
  }

  /** In every valid state the stored term is already lower case: lower-casing it changes nothing. */
  lemma StoredTermIsLower(c: ListAssignedTasks)
    requires c.Valid()
    ensures Lower(c.searchInput) == c.searchInput
  {
    LowerOfLower(c.searchInput);
  }
}
