/**
 * The app's router (expo-router's `useRouter()`), reduced to what the
 * screens do with it: each `router.push` or `router.replace` appends the
 * target path to a log. Real navigation is not modelled.
 */
module Routing {

  datatype Navigation = Pushed(path: string) | Replaced(path: string)

  class Router {
    /** Every navigation requested so far, oldest first. */
    var history: seq<Navigation>

    constructor ()
      ensures history == []
    {
      history := [];
    }

    /** `router.push(path)` */
    method Push(path: string)
      modifies this
      ensures history == old(history) + [Pushed(path)]
    {
      history := history + [Pushed(path)];
    }

    /** `router.replace(path)` */
    method Replace(path: string)
      modifies this
      ensures history == old(history) + [Replaced(path)]
    {
      history := history + [Replaced(path)];
    }
  }
}
