/** The entities of the world whose graphs are searched. */
module Ecs {
  type Entity = nat
}
