/** The records shared by the store, the slices and the components
    (`src/types/index.ts`). Timestamps (`createdAt`, `updatedAt`) are not
    modelled: nothing in the modelled logic reads them. */
module Types {
  import opened Common

  datatype Stack = Stack(id: string, name: string, coverUrl: string, cardCount: int)

  datatype Card = Card(
    id: string,
    stackId: string,
    name: string,
    description: Option<string>,
    coverUrl: string,
    position: int)

  datatype CreateStackRequest = CreateStackRequest(name: string, coverUrl: string)

  /** One optional field of an update request: `Keep` when the key is absent
      (or `undefined` where the record spread is overridden anyway), `Put(v)`
      when the request carries `v`. Object spread replaces exactly the `Put`
      fields. */
  datatype Patch<T> = Keep | Put(value: T) {
    function ApplyTo(current: T): T {
      match this
      case Keep => current
      case Put(v) => v
    }
  }

  datatype UpdateStackRequest = UpdateStackRequest(name: Patch<string>, coverUrl: Patch<string>)

  datatype CreateCardRequest = CreateCardRequest(
    stackId: string,
    name: string,
    description: Option<string>,
    coverUrl: string)

  /** `description` may be put to `undefined` (`Put(None)`), which clears it. */
  datatype UpdateCardRequest = UpdateCardRequest(
    stackId: Patch<string>,
    name: Patch<string>,
    description: Patch<Option<string>>,
    coverUrl: Patch<string>)

  datatype NoticeKind = SuccessNotice | ErrorNotice | InfoNotice

  datatype Notification = Notification(id: string, message: string, kind: NoticeKind)

  datatype ThemeMode = Light | Dark

  /** JavaScript truthiness of an optional string: present and non-empty. */
  predicate Truthy(s: Option<string>) {
    s.Some? && s.value != ""
  }
}
