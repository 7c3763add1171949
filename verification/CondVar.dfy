/**
 POSIX condition variables. A thread that waits is asleep; a signal wakes at least one sleeper
 if there is one, a broadcast wakes all, and any sleeper may wake spuriously. A woken thread is
 awake until it next holds the mutex: then it leaves, or goes back to sleep.
 */
module CondVar {

  datatype Cond<T> = Cond(asleep: set<T>, awake: set<T>)

  ghost predicate Consistent<T>(c: Cond<T>) { c.asleep !! c.awake }

  function Sleep<T>(c: Cond<T>, t: T): Cond<T> { Cond(c.asleep + {t}, c.awake - {t}) }

  function Leave<T>(c: Cond<T>, t: T): Cond<T> { Cond(c.asleep, c.awake - {t}) }

  function Wake<T>(c: Cond<T>, woken: set<T>): Cond<T> { Cond(c.asleep - woken, c.awake + woken) }

  /** What one signal may wake. */
  predicate MaySignal<T>(c: Cond<T>, woken: set<T>) {
    woken <= c.asleep && (c.asleep != {} ==> woken != {})
  }

  function Broadcast<T>(c: Cond<T>): Cond<T> { Wake(c, c.asleep) }
}
