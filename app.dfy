/** The application state holder (src/app/app.rs). */
module App {
  import opened Wrappers
  import opened Util

  /** An `f32` given by its IEEE 754 bit pattern; no arithmetic on it is
      modelled. */
  datatype Float32 = Float32(bits: bv32)

  /** `0.0_f32`. */
  const Zero: Float32 := Float32(0)

  /** The titles of the seven wizard screens, in order. */
  const WizardTitles: seq<string> := [
    "Select Drive", "Select Deletion Method", "Confirm", "Deletion In progress",
    "Verify in progress", "Complete", "Error"]

  /** `App`: the title, the quit and deletion flags, the progress of a
      deletion, the drive and method lists and the current wizard screen. */
  class App {
    const title: string
    var shouldQuit: bool
    var isDeleting: bool
    var deletionProgress: Float32
    const drives: StatefulList<string>
    const deletionMethods: StatefulList<string>
    const state: TabsState

    /** `App::new`. */
    constructor (drives: seq<string>, deletionMethods: seq<string>, title: string)
      ensures this.title == title
      ensures !shouldQuit && !isDeleting && deletionProgress == Zero
      ensures fresh(state) && state.titles == WizardTitles && state.index == 0
      ensures fresh(this.drives) && this.drives.items == drives && this.drives.selected == None
      ensures fresh(this.deletionMethods) && this.deletionMethods != this.drives
      ensures this.deletionMethods.items == deletionMethods && this.deletionMethods.selected == None
    {
      this.title := title;
      state := new TabsState(WizardTitles);
      shouldQuit := false;
      isDeleting := false;
      deletionProgress := Zero;
      this.deletionMethods := new StatefulList.WithItems(deletionMethods);
      this.drives := new StatefulList.WithItems(drives);
    }

    /** `App::on_key`: 'q' asks to quit, whatever else is going on; every
      other key changes nothing. */
    method OnKey(c: char)
      modifies this
      ensures shouldQuit == (old(shouldQuit) || c == 'q')
      ensures c != 'q' ==> shouldQuit == old(shouldQuit)
      ensures isDeleting == old(isDeleting) && deletionProgress == old(deletionProgress)
    {
      match c {
        case 'q' => shouldQuit := true;
        case _ =>
      }
    }
  }
}
