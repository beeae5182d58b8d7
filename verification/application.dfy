/**
 * The state `AStarApplication` keeps between the settings dialog and the
 * visualizer: the grid, the two endpoints and the chosen heuristic.
 */
module Application {
  import opened Wrappers
  import opened Grid
  import opened Octile
  import opened HeapSearch

  /** The two distance functions the application can search with. */
  datatype HeuristicKind = OctileDistance | EuclideanDistance

  /**
   * `settings.get('heuristic') == 'euclidean'`: only that exact string picks
   * the euclidean distance; any other value, or no value, keeps octile.
   */
  function SelectHeuristic(setting: Option<string>): (h: HeuristicKind)
    ensures h == EuclideanDistance <==> setting == Some("euclidean")
    ensures setting.None? ==> h == OctileDistance
  {
    if setting == Some("euclidean") then EuclideanDistance else OctileDistance
  }

  /** The dialog's default choice and its "Octile Distance" entry both pick octile. */
  lemma OctileSettingPicksOctile()
    ensures SelectHeuristic(Some("octile")) == OctileDistance
  {
  }

  /**
   * The step cost the heap search uses for a heuristic, in half steps;
   * `None` for the euclidean distance, whose square root is not modelled.
   * The octile one meets the search's requirement on step costs.
   */
  function StepCostOf(h: HeuristicKind): (cost: Option<(Cell, Cell) -> nat>)
    ensures cost.Some? <==> h == OctileDistance
    ensures cost.Some? ==> StepCostOk(cost.value)
  {
    OctileIsStepCost();
    if h == OctileDistance then Some(OctileTwice) else None
  }

  /** The part of a settings dictionary the application reads. */
  datatype AppSettings = AppSettings(
    maze: Maze,
    startPoint: Cell,
    endPoint: Cell,
    heuristic: Option<string>)

  class AStarApplication {
    var maze: Option<Maze>
    var start: Option<Cell>
    var end: Option<Cell>
    var heuristic: HeuristicKind
    var settingsApplied: bool

    /**
     * `_initialize_app` sets no grid, no endpoints and the octile heuristic;
     * with `bypass_settings` and predefined settings those are applied at
     * once. Otherwise `open_settings_menu` opens the modal dialog, and the
     * second ensures describes the state before that dialog can apply any
     * settings: the dialog is I/O and is not part of this model.
     */
    constructor (bypassSettings: bool, predefined: Option<AppSettings>)
      ensures bypassSettings && predefined.Some? ==>
        && maze == Some(predefined.value.maze)
        && start == Some(predefined.value.startPoint)
        && end == Some(predefined.value.endPoint)
        && heuristic == SelectHeuristic(predefined.value.heuristic)
        && settingsApplied
      ensures !(bypassSettings && predefined.Some?) ==>
        maze.None? && start.None? && end.None? && heuristic == OctileDistance && !settingsApplied
    {
      maze := None;
      start := None;
      end := None;
      heuristic := OctileDistance;
      settingsApplied := false;
      new;
      if bypassSettings && predefined.Some? {
        HandleUpdatedSettings(predefined.value);
      }
    }

    /**
     * `handle_updated_settings`: take the grid, the endpoints and the
     * heuristic from the settings and mark them applied.
     */
    method HandleUpdatedSettings(settings: AppSettings)
      modifies this
      ensures maze == Some(settings.maze)
      ensures start == Some(settings.startPoint) && end == Some(settings.endPoint)
      ensures heuristic == SelectHeuristic(settings.heuristic)
      ensures settingsApplied
    {
      maze := Some(settings.maze);
      start := Some(settings.startPoint);
      end := Some(settings.endPoint);
      heuristic := SelectHeuristic(settings.heuristic);
      settingsApplied := true;
    }

    /** `on_visualization_complete`: clear the flag so the dialog opens again. */
    method OnVisualizationComplete()
      modifies this
      ensures !settingsApplied
      ensures maze == old(maze) && start == old(start) && end == old(end) && heuristic == old(heuristic)
    {
      settingsApplied := false;
    }
  }
}
