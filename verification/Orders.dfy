/** What an ordering must be for a choice by it to depend on nothing else. */
module Orders {

  ghost predicate StrictTotalOrder<T(!new)>(more: (T, T) -> bool) {
    && (forall a :: !more(a, a))
    && (forall a, b, c :: more(a, b) && more(b, c) ==> more(a, c))
    && (forall a, b :: more(a, b) || a == b || more(b, a))
  }
}
