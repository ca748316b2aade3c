/** The records of models.py: users, transactions, and the request bodies
    that create and update them, with the validation pydantic applies. */
module Models {
  import opened Http

  /** A primary key, represented by the text form of its UUID. */
  type Id = string

  /** A row of the `user` table (class User). */
  datatype User = User(
    id: Id,
    firstName: string,
    lastName: string,
    phone: string,
    password: string,
    createdAt: int)

  /** ResponseBase: what the user routes send back; it has no password. */
  datatype UserPublic = UserPublic(
    id: Id,
    firstName: string,
    lastName: string,
    phone: string,
    createdAt: int)

  function Public(u: User): (p: UserPublic)
    ensures p.id == u.id && p.createdAt == u.createdAt
    ensures p.firstName == u.firstName && p.lastName == u.lastName && p.phone == u.phone
  {
    UserPublic(u.id, u.firstName, u.lastName, u.phone, u.createdAt)
  }

  /** The signup body (class UserCreate). */
  datatype UserCreate = UserCreate(
    firstName: string,
    lastName: string,
    phone: string,
    password: string)

  /** The PATCH body (class UserUpdate): it does not extend UserBase, so no
      field is validated, and `None` means the field was not sent. */
  datatype UserUpdate = UserUpdate(
    username: Option<string>,
    phone: Option<string>,
    password: Option<string>)

  /** The keys of UserUpdate, in declaration order. */
  datatype UserField = Username | Phone | Password {
    /** The field's position in the class declaration. */
    function Rank(): nat {
      match this
      case Username => 0
      case Phone => 1
      case Password => 2
    }
  }

  /** `user.dict(exclude_unset=True).items()`: the fields the client sent,
      in declaration order. */
  function UserData(patch: UserUpdate): (items: seq<(UserField, string)>)
    ensures forall i, j :: 0 <= i < j < |items| ==> items[i].0.Rank() < items[j].0.Rank()
    ensures forall v :: (Username, v) in items <==> patch.username == Some(v)
    ensures forall v :: (Phone, v) in items <==> patch.phone == Some(v)
    ensures forall v :: (Password, v) in items <==> patch.password == Some(v)
  {
    (if patch.username.Some? then [(Username, patch.username.value)] else [])
    + (if patch.phone.Some? then [(Phone, patch.phone.value)] else [])
    + (if patch.password.Some? then [(Password, patch.password.value)] else [])
  }

  /** PATCH replies with `response_model=UserUpdate`. User has no `username`,
      so that key comes back empty, and the stored password is included. */
  function UpdateView(u: User): (v: UserUpdate)
    ensures v.username.None?
    ensures v.phone == Some(u.phone) && v.password == Some(u.password)
  {
    UserUpdate(None, Some(u.phone), Some(u.password))
  }

  /** The transaction request body (TransactionBase / TransactionRequest). */
  datatype TransactionRequest = TransactionRequest(
    senderPhone: string,
    receiverPhone: string,
    product: string,
    amount: int)

  /** A row of the `transaction` table (class Transaction). */
  datatype Transaction = Transaction(
    id: Id,
    senderPhone: string,
    receiverPhone: string,
    product: string,
    amount: int,
    deletedStatus: bool,
    createdAt: int)

  /** `Transaction(**req.model_dump())` with the generated id and timestamp. */
  function NewTransaction(req: TransactionRequest, id: Id, now: int): (t: Transaction)
    ensures !t.deletedStatus
    ensures t.id == id && t.createdAt == now
    ensures t.senderPhone == req.senderPhone && t.receiverPhone == req.receiverPhone
    ensures t.product == req.product && t.amount == req.amount
  {
    Transaction(id, req.senderPhone, req.receiverPhone, req.product, req.amount, false, now)
  }

  /** The outcome of a pydantic field validator. */
  datatype Validated<+T> = Accepted(value: T) | Rejected(message: string)

  const PhoneLength := 10
  const PhoneMessage := "Phone number must be 10 digits"

  /** UserBase.validate_phone: only the length is tested, not the characters. */
  function ValidatePhone(value: string): (r: Validated<string>)
    ensures r.Accepted? <==> |value| == PhoneLength
    ensures r.Accepted? ==> r.value == value
    ensures r.Rejected? ==> r.message == PhoneMessage
  {
    if |value| != PhoneLength then Rejected(PhoneMessage) else Accepted(value)
  }

  /** `Field(max_length=4, min_length=4)` on UserCreate.password. */
  const PasswordLength := 4

  datatype FieldError = PhoneError(message: string) | PasswordLengthError

  /** Every field error pydantic reports for a signup body, in field order;
      the body reaches the handler only when there is none. */
  function UserCreateErrors(req: UserCreate): (errs: seq<FieldError>)
    ensures errs == [] <==> |req.phone| == PhoneLength && |req.password| == PasswordLength
    ensures PhoneError(PhoneMessage) in errs <==> |req.phone| != PhoneLength
    ensures PasswordLengthError in errs <==> |req.password| != PasswordLength
    ensures forall e :: e in errs ==> e == PhoneError(PhoneMessage) || e == PasswordLengthError
  {
    (match ValidatePhone(req.phone)
     case Accepted(_) => []
     case Rejected(m) => [PhoneError(m)])
    + (if |req.password| != PasswordLength then [PasswordLengthError] else [])
  }

  const UserNotFoundDetail := "User not found"
}
